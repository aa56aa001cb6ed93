/** Whether a type conversion must start from the bytes that are already at the destination: a
    recursive walk over the source and destination types. */
module TypeWalk {
  import opened Codec
  import opened Grid

  /** Types as the walk sees them. Unsupported stands for references and variable-length types. */
  datatype Type =
    | Atomic(asize: nat)
    | Compound(csize: nat, members: seq<Member>)
    | Array(count: nat, base: Type)
    | Unsupported(usize: nat)

  datatype Member = Member(name: string, offset: nat, mtype: Type)

  function SizeOf(t: Type): nat {
    match t
    case Atomic(n) => n
    case Compound(n, _) => n
    case Array(count, base) => count * SizeOf(base)
    case Unsupported(n) => n
  }

  /** The bytes of a member inside its compound. */
  predicate Holds(m: Member, o: int) {
    m.offset <= o < m.offset + SizeOf(m.mtype)
  }

  ghost predicate Apart(members: seq<Member>) {
    forall i, j, o :: 0 <= i < j < |members| ==> !(Holds(members[i], o) && Holds(members[j], o))
  }

  /** Types as the library builds them: nothing is empty, members lie inside their compound
      without overlap. */
  ghost predicate WellFormed(t: Type) {
    SizeOf(t) > 0 &&
    match t
    case Atomic(_) => true
    case Unsupported(_) => true
    case Array(count, base) => WellFormed(base)
    case Compound(size, members) =>
      && (forall i :: 0 <= i < |members| ==>
            WellFormed(members[i].mtype) && members[i].offset + SizeOf(members[i].mtype) <= size)
      && Apart(members)
  }

  /** The position of the first member of that name, or -1. */
  function FindMember(members: seq<Member>, name: string): (i: int)
    ensures -1 <= i < |members|
    ensures i >= 0 ==> members[i].name == name && forall k :: 0 <= k < i ==> members[k].name != name
    ensures i < 0 ==> forall k :: 0 <= k < |members| ==> members[k].name != name
  {
    if members == [] then -1
    else if members[0].name == name then 0
    else
      var i := FindMember(members[1..], name);
      assert forall k :: 0 < k < |members| ==> members[k] == members[1..][k - 1];
      if i < 0 then -1 else i + 1
  }

  /** The index of the source member for a name, -1 also when the source is no compound. */
  function SourceIndex(src: Type, name: string): (i: int)
    ensures i >= 0 ==> src.Compound? && i < |src.members|
  {
    if src.Compound? then FindMember(src.members, name) else -1
  }

  // ----- which destination bytes a conversion writes -----

  /** Does converting src to dst write byte o of dst? Compound members are matched by name, array
      elements one by one; an atomic destination is written whole. */
  ghost predicate Writes(src: Type, dst: Type, o: int)
    decreases dst
  {
    match dst
    case Atomic(n) => 0 <= o < n
    case Unsupported(_) => false
    case Array(count, base) =>
      src.Array? && exists k :: 0 <= k < count && Writes(src.base, base, o - k * SizeOf(base))
    case Compound(_, members) =>
      exists i :: 0 <= i < |members| &&
        var j := SourceIndex(src, members[i].name);
        j >= 0 && Writes(src.members[j].mtype, members[i].mtype, o - members[i].offset)
  }

  /** Does the conversion of member i write byte o of the compound? */
  ghost predicate MemberWrites(src: Type, members: seq<Member>, i: nat, o: int)
    requires i < |members|
  {
    var m := members[i];
    var j := SourceIndex(src, m.name);
    j >= 0 && Writes(src.members[j].mtype, m.mtype, o - m.offset)
  }

  /** Every byte of the destination is written. */
  ghost predicate Full(src: Type, dst: Type) {
    forall o :: 0 <= o < SizeOf(dst) ==> Writes(src, dst, o)
  }

  lemma CompoundWriter(src: Type, dst: Type, o: int)
    requires dst.Compound?
    ensures Writes(src, dst, o) <==> exists i :: 0 <= i < |dst.members| && MemberWrites(src, dst.members, i, o)
  {
    hide SourceIndex;
    if i :| 0 <= i < |dst.members| && MemberWrites(src, dst.members, i, o) {
      var m := dst.members[i];
      assert Writes(src.members[SourceIndex(src, m.name)].mtype, m.mtype, o - m.offset);
    }
    if Writes(src, dst, o) {
      var i :| 0 <= i < |dst.members| &&
        var j := SourceIndex(src, dst.members[i].name);
        j >= 0 && Writes(src.members[j].mtype, dst.members[i].mtype, o - dst.members[i].offset);
      assert MemberWrites(src, dst.members, i, o);
    }
  }

  lemma {:induction false} WritesInside(src: Type, dst: Type, o: int)
    requires WellFormed(dst) && Writes(src, dst, o)
    ensures 0 <= o < SizeOf(dst)
    decreases dst
  {
    match dst {
      case Atomic(_) =>
      case Unsupported(_) =>
      case Array(count, base) =>
        var k :| 0 <= k < count && Writes(src.base, base, o - k * SizeOf(base));
        ElementIn(src, dst, k, o);
      case Compound(_, members) =>
        CompoundWriter(src, dst, o);
        var i :| 0 <= i < |members| && MemberWrites(src, members, i, o);
        MemberIn(src, dst, i, o);
    }
  }

  lemma {:induction false} ElementIn(src: Type, dst: Type, k: nat, o: int)
    requires WellFormed(dst) && dst.Array? && src.Array?
    requires k < dst.count && Writes(src.base, dst.base, o - k * SizeOf(dst.base))
    ensures 0 <= o < SizeOf(dst)
    decreases dst, 0
  {
    assert WellFormed(dst.base) && SizeOf(dst) == dst.count * SizeOf(dst.base);
    hide *;
    WritesInside(src.base, dst.base, o - k * SizeOf(dst.base));
    ScaleOrder(k, dst.count, SizeOf(dst.base));
    ScaleOrder(0, k + 1, SizeOf(dst.base));
  }

  lemma {:induction false} MemberIn(src: Type, dst: Type, i: nat, o: int)
    requires WellFormed(dst) && dst.Compound? && i < |dst.members| && MemberWrites(src, dst.members, i, o)
    ensures 0 <= o < SizeOf(dst)
    decreases dst, 0
  {
    var m := dst.members[i];
    var j := SourceIndex(src, m.name);
    assert j >= 0 && Writes(src.members[j].mtype, m.mtype, o - m.offset);
    MemberInside(dst, i);
    hide *;
    WritesInside(src.members[j].mtype, m.mtype, o - m.offset);
  }

  lemma MemberInside(dst: Type, i: nat)
    requires WellFormed(dst) && dst.Compound? && i < |dst.members|
    ensures WellFormed(dst.members[i].mtype)
    ensures dst.members[i].offset + SizeOf(dst.members[i].mtype) <= SizeOf(dst)
  {
  }

  // ----- arrays -----

  /** The array element that holds byte o. */
  function ElementAt(o: nat, size: nat): (k: nat)
    requires size > 0
    ensures k * size <= o < k * size + size
  {
    if o < size then 0
    else
      var k := ElementAt(o - size, size);
      ScaleSucc(k, size);
      k + 1
  }

  lemma ElementUnique(o: nat, k: nat, size: nat)
    requires size > 0 && k * size <= o < k * size + size
    ensures ElementAt(o, size) == k
  {
    var e := ElementAt(o, size);
    if e < k {
      ScaleOrder(e, k, size);
    } else if k < e {
      ScaleOrder(k, e, size);
    }
  }

  lemma ElementBelow(o: nat, count: nat, size: nat)
    requires size > 0 && o < count * size
    ensures ElementAt(o, size) < count
  {
    var k := ElementAt(o, size);
    if count < k {
      ScaleOrder(count, k, size);
    }
  }

  /** Only the element that holds a byte can write it. */
  lemma ElementWrites(src: Type, dst: Type, o: nat)
    requires WellFormed(dst) && dst.Array? && src.Array? && o < SizeOf(dst)
    ensures var size := SizeOf(dst.base);
      size > 0 && (Writes(src, dst, o) <==> Writes(src.base, dst.base, o - ElementAt(o, size) * size))
  {
    var size := SizeOf(dst.base);
    ElementBelow(o, dst.count, size);
    if Writes(src, dst, o) {
      var k: nat :| k < dst.count && Writes(src.base, dst.base, o - k * size);
      WritesInside(src.base, dst.base, o - k * size);
      ElementUnique(o, k, size);
    }
  }

  /** An array is written in full exactly when its elements are. */
  lemma ArrayFull(src: Type, dst: Type)
    requires WellFormed(dst) && dst.Array? && src.Array?
    ensures Full(src, dst) <==> Full(src.base, dst.base)
  {
    var size, count := SizeOf(dst.base), dst.count;
    assert count > 0;
    if Full(src, dst) {
      forall o | 0 <= o < size ensures Writes(src.base, dst.base, o) {
        if count > 1 {
          ScaleOrder(1, count, size);
        }
        assert Writes(src, dst, o);
        ElementWrites(src, dst, o);
        ElementUnique(o, 0, size);
      }
    }
    if Full(src.base, dst.base) {
      forall o | 0 <= o < SizeOf(dst) ensures Writes(src, dst, o) {
        ElementWrites(src, dst, o);
        assert Writes(src.base, dst.base, o - ElementAt(o, size) * size);
      }
    }
  }

  // ----- compounds -----

  function SizesOf(members: seq<Member>): nat {
    if members == [] then 0 else SizesOf(members[..|members| - 1]) + SizeOf(members[|members| - 1].mtype)
  }

  predicate Between(lo: int, o: int, hi: int) {
    lo <= o < hi
  }

  ghost function Interval(lo: int, n: nat): set<int> {
    set o {:trigger Between(lo, o, lo + n)} | lo <= o < lo + n && Between(lo, o, lo + n)
  }

  lemma {:induction false} IntervalSize(lo: int, n: nat)
    ensures |Interval(lo, n)| == n
  {
    if n > 0 {
      IntervalSize(lo, n - 1);
      assert Interval(lo, n) == Interval(lo, n - 1) + {lo + n - 1};
    }
  }

  ghost function HeldBytes(members: seq<Member>): set<int> {
    if members == [] then {}
    else
      var last := members[|members| - 1];
      HeldBytes(members[..|members| - 1]) + Interval(last.offset, SizeOf(last.mtype))
  }

  lemma {:induction false} HeldIff(members: seq<Member>, o: int)
    ensures o in HeldBytes(members) <==> exists i :: 0 <= i < |members| && Holds(members[i], o)
  {
    if members != [] {
      var n := |members| - 1;
      HeldIff(members[..n], o);
      if i :| 0 <= i < |members| && Holds(members[i], o) {
        assert i < n ==> members[..n][i] == members[i];
      }
      if i :| 0 <= i < n && Holds(members[..n][i], o) {
        assert members[i] == members[..n][i];
      }
    }
  }

  /** Members that do not overlap hold as many bytes as their sizes add up to. */
  lemma {:induction false} HeldSize(members: seq<Member>)
    requires Apart(members)
    ensures |HeldBytes(members)| == SizesOf(members)
  {
    if members != [] {
      var n := |members| - 1;
      var init, last := members[..n], members[n];
      assert forall i :: 0 <= i < n ==> init[i] == members[i];
      HeldSize(init);
      LastApart(members);
      IntervalSize(last.offset, SizeOf(last.mtype));
      hide Interval, Apart;
    }
  }

  /** The last member holds no byte of the others. */
  lemma LastApart(members: seq<Member>)
    requires Apart(members) && members != []
    ensures var last := members[|members| - 1];
      HeldBytes(members[..|members| - 1]) !! Interval(last.offset, SizeOf(last.mtype))
  {
    var n := |members| - 1;
    var init, last := members[..n], members[n];
    assert forall i :: 0 <= i < n ==> init[i] == members[i];
    forall o | o in Interval(last.offset, SizeOf(last.mtype)) ensures o !in HeldBytes(init) {
      HeldIff(init, o);
      assert Holds(members[n], o);
    }
  }

  /** The bytes held lie inside the compound; their number is the compound's size exactly when
      there are no gaps. */
  lemma NoGaps(dst: Type)
    requires WellFormed(dst) && dst.Compound?
    ensures SizesOf(dst.members) <= dst.csize
    ensures SizesOf(dst.members) == dst.csize <==>
      forall o :: 0 <= o < dst.csize ==> o in HeldBytes(dst.members)
  {
    var held, all := HeldBytes(dst.members), Interval(0, dst.csize);
    HeldSize(dst.members);
    IntervalSize(0, dst.csize);
    forall o | o in held ensures o in all {
      HeldIff(dst.members, o);
      var i :| 0 <= i < |dst.members| && Holds(dst.members[i], o);
    }
    Cardinality(held, all);
    assert held == all <==> forall o :: 0 <= o < dst.csize ==> o in held;
  }

  lemma Cardinality(a: set<int>, b: set<int>)
    requires a <= b
    ensures |a| <= |b| && (|a| == |b| <==> a == b)
  {
    assert b == a + (b - a) && |b| == |a| + |b - a|;
  }

  /** Member i has a source member and is written in full from it. */
  ghost predicate MemberFull(src: Type, members: seq<Member>, i: nat)
    requires i < |members|
  {
    var j := SourceIndex(src, members[i].name);
    j >= 0 && Full(src.members[j].mtype, members[i].mtype)
  }

  lemma OneHolder(members: seq<Member>, i: nat, k: nat, o: int)
    requires Apart(members) && i < |members| && k < |members| && Holds(members[i], o) && Holds(members[k], o)
    ensures i == k
  {
  }

  /** Only member i can write the bytes it holds. */
  lemma OwnWriter(src: Type, dst: Type, i: nat, o: int)
    requires WellFormed(dst) && dst.Compound? && i < |dst.members| && Holds(dst.members[i], o)
    ensures Writes(src, dst, o) <==> MemberWrites(src, dst.members, i, o)
  {
    if Writes(src, dst, o) {
      CompoundWriter(src, dst, o);
      var k :| 0 <= k < |dst.members| && MemberWrites(src, dst.members, k, o);
      WriterHolds(src, dst, k, o);
      OneHolder(dst.members, k, i, o);
    }
  }

  lemma WriterHolds(src: Type, dst: Type, k: nat, o: int)
    requires WellFormed(dst) && dst.Compound? && k < |dst.members| && MemberWrites(src, dst.members, k, o)
    ensures Holds(dst.members[k], o)
  {
    var m := dst.members[k];
    WritesInside(src.members[SourceIndex(src, m.name)].mtype, m.mtype, o - m.offset);
  }

  /** A compound that is written in full has every member matched and written in full. */
  lemma FullMember(src: Type, dst: Type, i: nat)
    requires WellFormed(dst) && dst.Compound? && i < |dst.members| && Full(src, dst)
    ensures MemberFull(src, dst.members, i)
  {
    var m := dst.members[i];
    forall o | Holds(m, o) ensures MemberWrites(src, dst.members, i, o) {
      OwnWriter(src, dst, i, o);
    }
    assert Holds(m, m.offset);
    assert MemberWrites(src, dst.members, i, m.offset);
    var j := SourceIndex(src, m.name);
    forall o | 0 <= o < SizeOf(m.mtype) ensures Writes(src.members[j].mtype, m.mtype, o) {
      assert Holds(m, o + m.offset);
      assert MemberWrites(src, dst.members, i, o + m.offset);
    }
  }

  /** A compound is written in full exactly when every member is and there are no gaps. */
  lemma CompoundFull(src: Type, dst: Type)
    requires WellFormed(dst) && dst.Compound?
    ensures Full(src, dst) <==>
      (forall i :: 0 <= i < |dst.members| ==> MemberFull(src, dst.members, i)) && SizesOf(dst.members) == dst.csize
  {
    NoGaps(dst);
    if Full(src, dst) {
      forall i | 0 <= i < |dst.members| ensures MemberFull(src, dst.members, i) {
        FullMember(src, dst, i);
      }
      forall o | 0 <= o < dst.csize ensures o in HeldBytes(dst.members) {
        assert Writes(src, dst, o);
        CompoundWriter(src, dst, o);
        var k :| 0 <= k < |dst.members| && MemberWrites(src, dst.members, k, o);
        WriterHolds(src, dst, k, o);
        HeldIff(dst.members, o);
      }
    }
    if (forall i :: 0 <= i < |dst.members| ==> MemberFull(src, dst.members, i)) && SizesOf(dst.members) == dst.csize {
      forall o | 0 <= o < dst.csize ensures Writes(src, dst, o) {
        HeldIff(dst.members, o);
        var i :| 0 <= i < |dst.members| && Holds(dst.members[i], o);
        assert MemberFull(src, dst.members, i);
        assert MemberWrites(src, dst.members, i, o);
        CompoundWriter(src, dst, o);
      }
    }
  }

  // ----- the walk -----

  datatype Need = Needed(bkg: bool) | WalkFailed

  /** A background buffer is needed for compounds, also inside arrays. */
  predicate NeedsBuffer(dst: Type) {
    match dst
    case Compound(_, _) => true
    case Array(_, base) => NeedsBuffer(base)
    case _ => false
  }

  /** The walk fails on an unsupported type or an array without a source array, unless it is
      settled before it gets there. */
  ghost predicate Fails(src: Type, dst: Type)
    decreases dst
  {
    match dst
    case Atomic(_) => false
    case Unsupported(_) => true
    case Array(_, base) => !src.Array? || Fails(src.base, base)
    case Compound(_, members) =>
      exists i :: 0 <= i < |members| && FullUpTo(src, members, i) &&
        var j := SourceIndex(src, members[i].name);
        j >= 0 && Fails(src.members[j].mtype, members[i].mtype)
  }

  /** The members before i are written in full. */
  ghost predicate FullUpTo(src: Type, members: seq<Member>, i: nat)
    requires i <= |members|
  {
    forall k :: 0 <= k < i ==> MemberFull(src, members, k)
  }

  ghost predicate MemberFails(src: Type, members: seq<Member>, i: nat)
    requires i < |members|
  {
    var j := SourceIndex(src, members[i].name);
    j >= 0 && Fails(src.members[j].mtype, members[i].mtype)
  }

  /** H5VL_dtio_need_bkg. If the walk does not fail, the background must be filled exactly when
      some byte of the destination is not written. */
  method NeedBkg(src: Type, dst: Type) returns (r: Need, dstSize: nat, fill: bool)
    requires WellFormed(dst)
    ensures dstSize == SizeOf(dst)
    ensures r == if Fails(src, dst) then WalkFailed else Needed(NeedsBuffer(dst))
    ensures r.Needed? ==> (fill <==> !Full(src, dst))
    decreases dst, 2
  {
    dstSize, fill := SizeOf(dst), false;
    match dst {
      case Atomic(n) =>
        r := Needed(false);
      case Unsupported(_) =>
        r := WalkFailed;
      case Array(count, base) =>
        if !src.Array? {
          return WalkFailed, dstSize, false;
        }
        var size;
        assert WellFormed(base);
        r, size, fill := NeedBkg(src.base, base);
        ArrayFull(src, dst);
      case Compound(size, members) =>
        r, fill := NeedBkgCompound(src, dst);
    }
  }

  /** The loop over the members of a compound. */
  method NeedBkgCompound(src: Type, dst: Type) returns (r: Need, fill: bool)
    requires WellFormed(dst) && dst.Compound?
    ensures r == if Fails(src, dst) then WalkFailed else Needed(true)
    ensures r.Needed? ==> (fill <==> !Full(src, dst))
    decreases dst, 1
  {
    hide *;
    var members := dst.members;
    var sizeUsed := 0;
    var i := 0;
    WalkStarts(src, members);
    while i < |members|
      invariant i <= |members| && sizeUsed == SizesOf(members[..i]) && Passed(src, members, i)
    {
      var sub, membFill, membSize := NeedBkgMember(src, dst, i);
      if sub.WalkFailed? {
        WalkFails(src, dst, i);
        return WalkFailed, false;
      }
      if membFill {
        WalkStops(src, dst, i);
        return Needed(true), true;
      }
      WalkGoesOn(src, members, i);
      sizeUsed := sizeUsed + membSize;
      i := i + 1;
    }
    assert members[..i] == members;
    WalkEnds(src, dst);
    assert sizeUsed <= dst.csize;
    return Needed(true), sizeUsed != dst.csize;
  }

  /** One member: looked up in the source, then walked. */
  method NeedBkgMember(src: Type, dst: Type, i: nat) returns (r: Need, fill: bool, membSize: nat)
    requires WellFormed(dst) && dst.Compound? && i < |dst.members|
    ensures r.WalkFailed? <==> MemberFails(src, dst.members, i)
    ensures r.Needed? ==> (fill <==> !MemberFull(src, dst.members, i))
    ensures r.Needed? && !fill ==> membSize == SizeOf(dst.members[i].mtype)
    decreases dst, 0
  {
    var m := dst.members[i];
    var srcI := SourceIndex(src, m.name);
    MemberCases(src, dst.members, i);
    if srcI < 0 {
      return Needed(true), true, 0;
    }
    MemberInside(dst, i);
    hide WellFormed, Full, Fails, MemberFull, MemberFails;
    assert m.mtype < dst;
    r, membSize, fill := NeedBkg(src.members[srcI].mtype, m.mtype);
  }

  /** The walk has got to member i: those before it are written in full, and their walks did not
      fail. */
  ghost predicate Passed(src: Type, members: seq<Member>, i: nat)
    requires i <= |members|
  {
    forall k :: 0 <= k < i ==> MemberFull(src, members, k) && !MemberFails(src, members, k)
  }

  lemma WalkStarts(src: Type, members: seq<Member>)
    ensures SizesOf(members[..0]) == 0 && Passed(src, members, 0)
  {
  }

  lemma WalkGoesOn(src: Type, members: seq<Member>, i: nat)
    requires i < |members| && Passed(src, members, i) && MemberFull(src, members, i) && !MemberFails(src, members, i)
    ensures Passed(src, members, i + 1)
    ensures SizesOf(members[..i + 1]) == SizesOf(members[..i]) + SizeOf(members[i].mtype)
  {
    hide MemberFull, MemberFails;
    assert members[..i + 1][..i] == members[..i];
  }

  lemma WalkFails(src: Type, dst: Type, i: nat)
    requires dst.Compound? && i < |dst.members| && Passed(src, dst.members, i) && MemberFails(src, dst.members, i)
    ensures Fails(src, dst)
  {
    CompoundFails(src, dst);
  }

  /** The walk ends at a member that is not written in full: no later one matters. */
  lemma WalkStops(src: Type, dst: Type, i: nat)
    requires WellFormed(dst) && dst.Compound? && i < |dst.members| && Passed(src, dst.members, i)
    requires !MemberFails(src, dst.members, i) && !MemberFull(src, dst.members, i)
    ensures !Fails(src, dst) && !Full(src, dst)
  {
    CompoundFails(src, dst);
    CompoundFull(src, dst);
    hide MemberFull, MemberFails, Fails, Full, WellFormed;
  }

  /** Every member is written in full: what is left are the gaps. */
  lemma WalkEnds(src: Type, dst: Type)
    requires WellFormed(dst) && dst.Compound? && Passed(src, dst.members, |dst.members|)
    ensures !Fails(src, dst) && SizesOf(dst.members) <= dst.csize
    ensures Full(src, dst) <==> SizesOf(dst.members) == dst.csize
  {
    CompoundFails(src, dst);
    CompoundFull(src, dst);
    NoGaps(dst);
    hide MemberFull, MemberFails, Fails, Full, WellFormed;
  }

  lemma CompoundFails(src: Type, dst: Type)
    requires dst.Compound?
    ensures Fails(src, dst) <==>
      exists i :: 0 <= i < |dst.members| && FullUpTo(src, dst.members, i) && MemberFails(src, dst.members, i)
  {
    hide FullUpTo;
    if i :| 0 <= i < |dst.members| && FullUpTo(src, dst.members, i) && MemberFails(src, dst.members, i) {
      var j := SourceIndex(src, dst.members[i].name);
      assert Fails(src.members[j].mtype, dst.members[i].mtype);
    }
    if Fails(src, dst) {
      var i :| 0 <= i < |dst.members| && FullUpTo(src, dst.members, i) &&
        var j := SourceIndex(src, dst.members[i].name);
        j >= 0 && Fails(src.members[j].mtype, dst.members[i].mtype);
      assert MemberFails(src, dst.members, i);
    }
  }

  /** The walk's view of one member: unmatched, or decided by the member's own walk. */
  lemma MemberCases(src: Type, members: seq<Member>, i: nat)
    requires i < |members|
    ensures var j := SourceIndex(src, members[i].name);
      if j < 0 then !MemberFull(src, members, i) && !MemberFails(src, members, i)
      else
        && (MemberFull(src, members, i) <==> Full(src.members[j].mtype, members[i].mtype))
        && (MemberFails(src, members, i) <==> Fails(src.members[j].mtype, members[i].mtype))
  {
    hide Full;
  }

  // ----- why it matters -----

  /** The bytes of a value. */
  type Bytes = seq<byte>

  /** Byte o of an atomic destination, computed from the bytes of the source value alone. */
  type Atoms = (Type, Type, Bytes, int) -> byte

  function At(bytes: Bytes, o: int): byte {
    if 0 <= o < |bytes| then bytes[o] else 0
  }

  /** The n bytes from off on. */
  function Part(bytes: Bytes, off: int, n: nat): (part: Bytes)
    ensures |part| == n
  {
    seq<byte>(n, o requires 0 <= o < n => At(bytes, off + o))
  }

  lemma PartAt(bytes: Bytes, off: int, n: nat, o: int)
    requires 0 <= o < n
    ensures At(Part(bytes, off, n), o) == At(bytes, off + o)
  {
  }

  /** The last member that holds byte o, or -1. */
  function HolderOf(members: seq<Member>, o: int): (i: int)
    ensures -1 <= i < |members|
    ensures i >= 0 ==> Holds(members[i], o)
    ensures i < 0 ==> forall k :: 0 <= k < |members| ==> !Holds(members[k], o)
  {
    if members == [] then -1
    else
      var n := |members| - 1;
      if Holds(members[n], o) then n
      else
        var i := HolderOf(members[..n], o);
        assert forall k :: 0 <= k < n ==> members[..n][k] == members[k];
        i
  }

  /** Byte o of the converted value: array elements are converted one by one, compound members
      from the source member of their name, each at its place in source and background; what no
      conversion reaches is background. */
  function Converted(atoms: Atoms, src: Type, dst: Type, s: Bytes, bkg: Bytes, o: int): byte
    decreases dst
  {
    match dst
    case Atomic(n) => if 0 <= o < n then atoms(src, dst, s, o) else At(bkg, o)
    case Unsupported(_) => At(bkg, o)
    case Array(count, base) =>
      var size := SizeOf(base);
      if !src.Array? || size == 0 || !(0 <= o < count * size) then At(bkg, o)
      else
        var k := ElementAt(o, size);
        var from := SizeOf(src.base);
        Converted(atoms, src.base, base, Part(s, k * from, from), Part(bkg, k * size, size), o - k * size)
    case Compound(_, members) =>
      var i := HolderOf(members, o);
      if i < 0 || SourceIndex(src, members[i].name) < 0 then At(bkg, o)
      else
        var from, m := src.members[SourceIndex(src, members[i].name)], members[i];
        Converted(atoms, from.mtype, m.mtype, Part(s, from.offset, SizeOf(from.mtype)),
                  Part(bkg, m.offset, SizeOf(m.mtype)), o - m.offset)
  }

  /** A byte that the conversion writes does not depend on the background; any other byte is the
      background's. */
  lemma {:induction false} WrittenOrBackground(atoms: Atoms, src: Type, dst: Type, s: Bytes, b: Bytes, c: Bytes, o: int)
    requires WellFormed(dst) && 0 <= o < SizeOf(dst)
    ensures Writes(src, dst, o) ==> Converted(atoms, src, dst, s, b, o) == Converted(atoms, src, dst, s, c, o)
    ensures !Writes(src, dst, o) ==> Converted(atoms, src, dst, s, b, o) == At(b, o)
    decreases dst, 1
  {
    match dst {
      case Atomic(_) =>
      case Unsupported(_) =>
      case Array(_, _) =>
        if src.Array? {
          WrittenElement(atoms, src, dst, s, b, c, o);
        }
      case Compound(_, members) =>
        var i := HolderOf(members, o);
        if i >= 0 {
          OwnWriter(src, dst, i, o);
          if SourceIndex(src, members[i].name) >= 0 {
            WrittenMember(atoms, src, dst, s, b, c, i, o);
          }
        } else if Writes(src, dst, o) {
          CompoundWriter(src, dst, o);
          var k :| 0 <= k < |members| && MemberWrites(src, members, k, o);
          WriterHolds(src, dst, k, o);
        }
    }
  }

  lemma ConvertedElement(atoms: Atoms, src: Type, dst: Type, s: Bytes, bkg: Bytes, k: nat, o: int)
    requires WellFormed(dst) && dst.Array? && src.Array? && 0 <= o < SizeOf(dst)
    requires SizeOf(dst.base) > 0 && k == ElementAt(o, SizeOf(dst.base))
    ensures var size, from := SizeOf(dst.base), SizeOf(src.base);
      Converted(atoms, src, dst, s, bkg, o)
        == Converted(atoms, src.base, dst.base, Part(s, k * from, from), Part(bkg, k * size, size), o - k * size)
  {
    hide ElementAt, Part, At;
  }

  lemma {:induction false} WrittenElement(atoms: Atoms, src: Type, dst: Type, s: Bytes, b: Bytes, c: Bytes, o: int)
    requires WellFormed(dst) && dst.Array? && src.Array? && 0 <= o < SizeOf(dst)
    ensures Writes(src, dst, o) ==> Converted(atoms, src, dst, s, b, o) == Converted(atoms, src, dst, s, c, o)
    ensures !Writes(src, dst, o) ==> Converted(atoms, src, dst, s, b, o) == At(b, o)
    decreases dst, 0
  {
    assert WellFormed(dst.base);
    hide *;
    ElementWrites(src, dst, o);
    var size, from := SizeOf(dst.base), SizeOf(src.base);
    var k := ElementAt(o, size);
    ConvertedElement(atoms, src, dst, s, b, k, o);
    ConvertedElement(atoms, src, dst, s, c, k, o);
    PartAt(b, k * size, size, o - k * size);
    var t, b', c' := Part(s, k * from, from), Part(b, k * size, size), Part(c, k * size, size);
    WrittenOrBackground(atoms, src.base, dst.base, t, b', c', o - k * size);
  }

  lemma ConvertedMember(atoms: Atoms, src: Type, dst: Type, s: Bytes, bkg: Bytes, i: nat, o: int)
    requires dst.Compound? && i < |dst.members| && HolderOf(dst.members, o) == i
    requires SourceIndex(src, dst.members[i].name) >= 0
    ensures var m := dst.members[i];
      var from := src.members[SourceIndex(src, m.name)];
      Converted(atoms, src, dst, s, bkg, o)
        == Converted(atoms, from.mtype, m.mtype, Part(s, from.offset, SizeOf(from.mtype)),
                  Part(bkg, m.offset, SizeOf(m.mtype)), o - m.offset)
  {
    hide HolderOf, SourceIndex;
  }

  lemma HeldMember(src: Type, dst: Type, i: nat, o: int)
    requires WellFormed(dst) && dst.Compound? && i < |dst.members| && HolderOf(dst.members, o) == i
    requires SourceIndex(src, dst.members[i].name) >= 0
    ensures var m := dst.members[i];
      var from := src.members[SourceIndex(src, m.name)];
      && WellFormed(m.mtype) && 0 <= o - m.offset < SizeOf(m.mtype)
      && (MemberWrites(src, dst.members, i, o) <==> Writes(from.mtype, m.mtype, o - m.offset))
  {
    MemberInside(dst, i);
    hide WellFormed, Writes, HolderOf, SourceIndex;
  }

  lemma {:induction false} WrittenMember(atoms: Atoms, src: Type, dst: Type, s: Bytes, b: Bytes, c: Bytes,
                                         i: nat, o: int)
    requires WellFormed(dst) && dst.Compound? && i < |dst.members| && HolderOf(dst.members, o) == i
    requires SourceIndex(src, dst.members[i].name) >= 0
    ensures MemberWrites(src, dst.members, i, o) ==>
      Converted(atoms, src, dst, s, b, o) == Converted(atoms, src, dst, s, c, o)
    ensures !MemberWrites(src, dst.members, i, o) ==> Converted(atoms, src, dst, s, b, o) == At(b, o)
    decreases dst, 0
  {
    var m := dst.members[i];
    var from := src.members[SourceIndex(src, m.name)];
    HeldMember(src, dst, i, o);
    hide *;
    ConvertedMember(atoms, src, dst, s, b, i, o);
    ConvertedMember(atoms, src, dst, s, c, i, o);
    var size := SizeOf(m.mtype);
    var t, b', c' := Part(s, from.offset, SizeOf(from.mtype)), Part(b, m.offset, size), Part(c, m.offset, size);
    PartAt(b, m.offset, size, o - m.offset);
    WrittenOrBackground(atoms, from.mtype, m.mtype, t, b', c', o - m.offset);
  }

  /** The converted value is the same for every background exactly when every byte is written,
      that is, when the walk says that the background need not be filled. */
  lemma BackgroundIrrelevant(atoms: Atoms, src: Type, dst: Type, s: Bytes)
    requires WellFormed(dst)
    ensures Full(src, dst) <==>
      forall b: Bytes, c: Bytes, o :: 0 <= o < SizeOf(dst) ==>
        Converted(atoms, src, dst, s, b, o) == Converted(atoms, src, dst, s, c, o)
  {
    if Full(src, dst) {
      forall b: Bytes, c: Bytes, o | 0 <= o < SizeOf(dst)
        ensures Converted(atoms, src, dst, s, b, o) == Converted(atoms, src, dst, s, c, o)
      {
        WrittenOrBackground(atoms, src, dst, s, b, c, o);
      }
    } else {
      var o :| 0 <= o < SizeOf(dst) && !Writes(src, dst, o);
      var n := SizeOf(dst);
      var zero: Bytes, one: Bytes := seq(n, _ => 0), seq(n, _ => 1);
      WrittenOrBackground(atoms, src, dst, s, zero, one, o);
      WrittenOrBackground(atoms, src, dst, s, one, zero, o);
      assert Converted(atoms, src, dst, s, zero, o) != Converted(atoms, src, dst, s, one, o);
    }
  }

  /** A type with nothing inside it that could give anything to a destination. */
  function Hollow(dst: Type): Type {
    match dst
    case Array(count, base) => Array(count, Hollow(base))
    case _ => Compound(SizeOf(dst), [])
  }

  lemma {:induction false} HollowLeaves(dst: Type)
    requires WellFormed(dst) && NeedsBuffer(dst)
    ensures !Fails(Hollow(dst), dst) && !Full(Hollow(dst), dst)
    decreases dst
  {
    match dst {
      case Array(_, base) =>
        HollowLeaves(base);
        ArrayFull(Hollow(dst), dst);
      case Compound(_, members) =>
        assert forall i :: 0 <= i < |members| ==> !MemberWrites(Hollow(dst), members, i, 0);
        CompoundWriter(Hollow(dst), dst, 0);
    }
  }

  /** Without a compound nothing is left to the background. */
  lemma {:induction false} FillHasBuffer(src: Type, dst: Type)
    requires WellFormed(dst) && !Fails(src, dst) && !NeedsBuffer(dst)
    ensures Full(src, dst)
    decreases dst
  {
    match dst {
      case Atomic(_) =>
      case Unsupported(_) =>
      case Compound(_, _) =>
      case Array(_, base) =>
        FillHasBuffer(src.base, base);
        ArrayFull(src, dst);
    }
  }

  /** A destination needs a buffer if and only if from some source the walk does not fail and leaves
      bytes to the background. */
  lemma NeedsBufferIff(dst: Type)
    requires WellFormed(dst)
    ensures NeedsBuffer(dst) <==> exists src :: !Fails(src, dst) && !Full(src, dst)
  {
    if NeedsBuffer(dst) {
      HollowLeaves(dst);
    } else {
      forall src | !Fails(src, dst) ensures Full(src, dst) {
        FillHasBuffer(src, dst);
      }
    }
    hide Fails, Full;
  }

  // ----- what a converted byte is -----

  /** The library converts compounds by member names, arrays of one length by elements, and simple
      types to simple types. */
  predicate Convertible(src: Type, dst: Type)
    decreases dst
  {
    match dst
    case Atomic(_) => src.Atomic?
    case Unsupported(_) => false
    case Array(count, base) => src.Array? && src.count == count && Convertible(src.base, base)
    case Compound(_, members) =>
      src.Compound? && forall i :: 0 <= i < |members| ==>
        var j := SourceIndex(src, members[i].name);
        j >= 0 ==> Convertible(src.members[j].mtype, members[i].mtype)
  }

  /** A way down a destination type to one of its simple types. */
  datatype Route = Here | Into(k: nat, rest: Route) | By(i: nat, rest: Route)

  /** A simple type inside the destination, the source type that belongs to it, and where the two
      begin. */
  datatype Leaf = Leaf(src: Type, dst: Type, srcOff: int, dstOff: int)

  datatype Option<T> = None | Some(value: T)

  function Further(l: Option<Leaf>, srcOff: int, dstOff: int): Option<Leaf> {
    if l.None? then None
    else Some(l.value.(srcOff := l.value.srcOff + srcOff, dstOff := l.value.dstOff + dstOff))
  }

  /** The leaf at the end of a route: element k of an array comes from element k of the source, a
      member of a compound from the source's member of its name. */
  function LeafAt(src: Type, dst: Type, r: Route): Option<Leaf>
    decreases r
  {
    match (r, dst)
    case (Here, Atomic(_)) => Some(Leaf(src, dst, 0, 0))
    case (Into(k, rest), Array(count, base)) =>
      if src.Array? && k < count then Further(LeafAt(src.base, base, rest), k * SizeOf(src.base), k * SizeOf(base))
      else None
    case (By(i, rest), Compound(_, members)) =>
      if i < |members| && SourceIndex(src, members[i].name) >= 0 then
        var from := src.members[SourceIndex(src, members[i].name)];
        Further(LeafAt(from.mtype, members[i].mtype, rest), from.offset, members[i].offset)
      else None
    case _ => None
  }

  /** Byte o of the destination lies in the leaf. */
  predicate Covers(l: Leaf, o: int) {
    l.dstOff <= o < l.dstOff + SizeOf(l.dst)
  }

  lemma {:induction false} LeafInsideDst(src: Type, dst: Type, r: Route)
    requires WellFormed(dst) && LeafAt(src, dst, r).Some?
    ensures var l := LeafAt(src, dst, r).value;
      l.dst.Atomic? && 0 <= l.dstOff && l.dstOff + SizeOf(l.dst) <= SizeOf(dst)
    decreases r
  {
    match r {
      case Here =>
      case Into(k, rest) =>
        LeafInsideDst(src.base, dst.base, rest);
        ScaleOrder(k, dst.count, SizeOf(dst.base));
        ScaleOrder(0, k + 1, SizeOf(dst.base));
      case By(i, rest) =>
        var from := src.members[SourceIndex(src, dst.members[i].name)];
        MemberInside(dst, i);
        LeafInsideDst(from.mtype, dst.members[i].mtype, rest);
    }
  }

  lemma {:induction false} LeafInsideSrc(src: Type, dst: Type, r: Route)
    requires WellFormed(src) && Convertible(src, dst) && LeafAt(src, dst, r).Some?
    ensures var l := LeafAt(src, dst, r).value;
      l.src.Atomic? && 0 <= l.srcOff && l.srcOff + SizeOf(l.src) <= SizeOf(src)
    decreases r
  {
    match r {
      case Here =>
      case Into(k, rest) =>
        LeafInsideSrc(src.base, dst.base, rest);
        ScaleOrder(k, src.count, SizeOf(src.base));
        ScaleOrder(0, k + 1, SizeOf(src.base));
      case By(i, rest) =>
        var j := SourceIndex(src, dst.members[i].name);
        MemberInside(src, j);
        LeafInsideSrc(src.members[j].mtype, dst.members[i].mtype, rest);
    }
  }

  /** A byte is written exactly if it lies in a leaf. */
  lemma {:induction false} LeafWrites(src: Type, dst: Type, r: Route, o: int)
    requires LeafAt(src, dst, r).Some? && Covers(LeafAt(src, dst, r).value, o)
    ensures Writes(src, dst, o)
    decreases r
  {
    match r {
      case Here =>
      case Into(k, rest) =>
        LeafWrites(src.base, dst.base, rest, o - k * SizeOf(dst.base));
      case By(i, rest) =>
        var from := src.members[SourceIndex(src, dst.members[i].name)];
        LeafWrites(from.mtype, dst.members[i].mtype, rest, o - dst.members[i].offset);
    }
  }

  lemma {:induction false} WrittenInLeaf(src: Type, dst: Type, o: int) returns (r: Route)
    requires Writes(src, dst, o)
    ensures LeafAt(src, dst, r).Some? && Covers(LeafAt(src, dst, r).value, o)
    decreases dst
  {
    match dst {
      case Atomic(_) =>
        r := Here;
      case Array(count, base) =>
        var k: nat :| k < count && Writes(src.base, base, o - k * SizeOf(base));
        var rest := WrittenInLeaf(src.base, base, o - k * SizeOf(base));
        r := Into(k, rest);
      case Compound(_, members) =>
        CompoundWriter(src, dst, o);
        var i: nat :| i < |members| && MemberWrites(src, members, i, o);
        r := WrittenInMember(src, dst, i, o);
    }
  }

  lemma {:induction false} WrittenInMember(src: Type, dst: Type, i: nat, o: int) returns (r: Route)
    requires dst.Compound? && i < |dst.members| && MemberWrites(src, dst.members, i, o)
    ensures LeafAt(src, dst, r).Some? && Covers(LeafAt(src, dst, r).value, o)
    decreases dst, 0
  {
    var m := dst.members[i];
    var from := src.members[SourceIndex(src, m.name)];
    hide Writes;
    var rest := WrittenInLeaf(from.mtype, m.mtype, o - m.offset);
    r := By(i, rest);
  }

  lemma PartOfPart(s: Bytes, a: int, n: nat, b: int, m: nat)
    requires 0 <= b && b + m <= n
    ensures Part(Part(s, a, n), b, m) == Part(s, a + b, m)
  {
    var inner, whole := Part(Part(s, a, n), b, m), Part(s, a + b, m);
    forall o | 0 <= o < m ensures inner[o] == whole[o] {
      PartAt(Part(s, a, n), b, m, o);
      PartAt(s, a, n, b + o);
      PartAt(s, a + b, m, o);
    }
  }

  /** A byte of a leaf is what the conversion of simple types makes of the source leaf's own bytes. */
  lemma {:induction false} LeafByte(atoms: Atoms, src: Type, dst: Type, s: Bytes, bkg: Bytes, r: Route, o: int)
    requires WellFormed(src) && WellFormed(dst) && Convertible(src, dst) && |s| == SizeOf(src)
    requires LeafAt(src, dst, r).Some? && Covers(LeafAt(src, dst, r).value, o)
    ensures var l := LeafAt(src, dst, r).value;
      Converted(atoms, src, dst, s, bkg, o) == atoms(l.src, l.dst, Part(s, l.srcOff, SizeOf(l.src)), o - l.dstOff)
    decreases r
  {
    match r {
      case Here =>
        assert Part(s, 0, SizeOf(src)) == s;
      case Into(k, rest) =>
        LeafByteElement(atoms, src, dst, s, bkg, r, o);
      case By(i, rest) =>
        LeafByteMember(atoms, src, dst, s, bkg, r, o);
    }
  }

  /** A leaf inside an array lies in one element of it. */
  lemma LeafElement(src: Type, dst: Type, r: Route, o: int)
    requires WellFormed(src) && WellFormed(dst) && Convertible(src, dst) && r.Into?
    requires LeafAt(src, dst, r).Some? && Covers(LeafAt(src, dst, r).value, o)
    ensures src.Array? && dst.Array? && 0 <= o < SizeOf(dst) && SizeOf(dst.base) > 0
    ensures WellFormed(src.base) && WellFormed(dst.base) && Convertible(src.base, dst.base)
    ensures r.k == ElementAt(o, SizeOf(dst.base))
    ensures LeafAt(src.base, dst.base, r.rest).Some?
    ensures var l, inner := LeafAt(src, dst, r).value, LeafAt(src.base, dst.base, r.rest).value;
      && l.src == inner.src && l.dst == inner.dst
      && l.srcOff == r.k * SizeOf(src.base) + inner.srcOff && l.dstOff == r.k * SizeOf(dst.base) + inner.dstOff
      && 0 <= inner.srcOff && inner.srcOff + SizeOf(inner.src) <= SizeOf(src.base)
      && Covers(inner, o - r.k * SizeOf(dst.base))
  {
    LeafInsideDst(src, dst, r);
    LeafInsideDst(src.base, dst.base, r.rest);
    LeafInsideSrc(src.base, dst.base, r.rest);
    ElementUnique(o, r.k, SizeOf(dst.base));
    hide ElementAt;
  }

  lemma {:induction false} LeafByteElement(atoms: Atoms, src: Type, dst: Type, s: Bytes, bkg: Bytes, r: Route, o: int)
    requires WellFormed(src) && WellFormed(dst) && Convertible(src, dst) && |s| == SizeOf(src) && r.Into?
    requires LeafAt(src, dst, r).Some? && Covers(LeafAt(src, dst, r).value, o)
    ensures var l := LeafAt(src, dst, r).value;
      Converted(atoms, src, dst, s, bkg, o) == atoms(l.src, l.dst, Part(s, l.srcOff, SizeOf(l.src)), o - l.dstOff)
    decreases r, 0
  {
    LeafElement(src, dst, r, o);
    hide *;
    var k, size, from := r.k, SizeOf(dst.base), SizeOf(src.base);
    var at, start := k * from, k * size;
    var inner := LeafAt(src.base, dst.base, r.rest).value;
    ConvertedElement(atoms, src, dst, s, bkg, k, o);
    PartOfPart(s, at, from, inner.srcOff, SizeOf(inner.src));
    LeafByte(atoms, src.base, dst.base, Part(s, at, from), Part(bkg, start, size), r.rest, o - start);
  }

  /** A leaf inside a compound lies in one member of it. */
  lemma LeafMember(src: Type, dst: Type, r: Route, o: int)
    requires WellFormed(src) && WellFormed(dst) && Convertible(src, dst) && r.By?
    requires LeafAt(src, dst, r).Some? && Covers(LeafAt(src, dst, r).value, o)
    ensures src.Compound? && dst.Compound? && r.i < |dst.members| && HolderOf(dst.members, o) == r.i
    ensures SourceIndex(src, dst.members[r.i].name) >= 0
    ensures var m := dst.members[r.i];
      var from := src.members[SourceIndex(src, m.name)];
      && WellFormed(from.mtype) && WellFormed(m.mtype) && Convertible(from.mtype, m.mtype)
      && LeafAt(from.mtype, m.mtype, r.rest).Some?
      && var l, inner := LeafAt(src, dst, r).value, LeafAt(from.mtype, m.mtype, r.rest).value;
         && l.src == inner.src && l.dst == inner.dst
         && l.srcOff == from.offset + inner.srcOff && l.dstOff == m.offset + inner.dstOff
         && 0 <= inner.srcOff && inner.srcOff + SizeOf(inner.src) <= SizeOf(from.mtype)
         && Covers(inner, o - m.offset)
  {
    var m := dst.members[r.i];
    var j := SourceIndex(src, m.name);
    var from := src.members[j];
    MemberInside(dst, r.i);
    MemberInside(src, j);
    LeafInsideDst(from.mtype, m.mtype, r.rest);
    LeafInsideSrc(from.mtype, m.mtype, r.rest);
    assert Holds(m, o);
    OneHolder(dst.members, r.i, HolderOf(dst.members, o), o);
    hide HolderOf;
  }

  lemma {:induction false} LeafByteMember(atoms: Atoms, src: Type, dst: Type, s: Bytes, bkg: Bytes, r: Route, o: int)
    requires WellFormed(src) && WellFormed(dst) && Convertible(src, dst) && |s| == SizeOf(src) && r.By?
    requires LeafAt(src, dst, r).Some? && Covers(LeafAt(src, dst, r).value, o)
    ensures var l := LeafAt(src, dst, r).value;
      Converted(atoms, src, dst, s, bkg, o) == atoms(l.src, l.dst, Part(s, l.srcOff, SizeOf(l.src)), o - l.dstOff)
    decreases r, 0
  {
    LeafMember(src, dst, r, o);
    hide *;
    var m := dst.members[r.i];
    var from := src.members[SourceIndex(src, m.name)];
    var inner, size, n := LeafAt(from.mtype, m.mtype, r.rest).value, SizeOf(m.mtype), SizeOf(from.mtype);
    ConvertedMember(atoms, src, dst, s, bkg, r.i, o);
    PartOfPart(s, from.offset, n, inner.srcOff, SizeOf(inner.src));
    LeafByte(atoms, from.mtype, m.mtype, Part(s, from.offset, n), Part(bkg, m.offset, size), r.rest, o - m.offset);
  }

  // ----- which types convert -----

  /** The two types that belong together at the end of a route, simple or not. */
  function TypesAt(src: Type, dst: Type, r: Route): Option<(Type, Type)>
    decreases r
  {
    match r
    case Here => Some((src, dst))
    case Into(k, rest) =>
      if src.Array? && dst.Array? && k < dst.count then TypesAt(src.base, dst.base, rest) else None
    case By(i, rest) =>
      if dst.Compound? && i < |dst.members| && SourceIndex(src, dst.members[i].name) >= 0 then
        TypesAt(src.members[SourceIndex(src, dst.members[i].name)].mtype, dst.members[i].mtype, rest)
      else None
  }

  predicate Alike(src: Type, dst: Type) {
    || (src.Atomic? && dst.Atomic?)
    || (src.Compound? && dst.Compound?)
    || (src.Array? && dst.Array? && src.count == dst.count)
  }

  ghost predicate AlikeThroughout(src: Type, dst: Type) {
    forall r :: TypesAt(src, dst, r).Some? ==> Alike(TypesAt(src, dst, r).value.0, TypesAt(src, dst, r).value.1)
  }

  lemma {:induction false} ConvertibleAlike(src: Type, dst: Type, r: Route)
    requires Convertible(src, dst) && TypesAt(src, dst, r).Some?
    ensures Alike(TypesAt(src, dst, r).value.0, TypesAt(src, dst, r).value.1)
    decreases r
  {
    match r {
      case Here =>
      case Into(_, rest) => ConvertibleAlike(src.base, dst.base, rest);
      case By(i, rest) =>
        ConvertibleAlike(src.members[SourceIndex(src, dst.members[i].name)].mtype, dst.members[i].mtype, rest);
    }
  }

  lemma {:induction false} AlikeConverts(src: Type, dst: Type)
    requires WellFormed(dst) && AlikeThroughout(src, dst)
    ensures Convertible(src, dst)
    decreases dst
  {
    assert Alike(src, dst) by { assert TypesAt(src, dst, Here) == Some((src, dst)); }
    match dst {
      case Atomic(_) =>
      case Array(count, base) =>
        forall r | TypesAt(src.base, base, r).Some?
          ensures Alike(TypesAt(src.base, base, r).value.0, TypesAt(src.base, base, r).value.1)
        {
          assert TypesAt(src, dst, Into(0, r)) == TypesAt(src.base, base, r);
        }
        AlikeConverts(src.base, base);
      case Compound(_, members) =>
        forall i: nat | i < |members| && SourceIndex(src, members[i].name) >= 0
          ensures Convertible(src.members[SourceIndex(src, members[i].name)].mtype, members[i].mtype)
        {
          MemberConverts(src, dst, i);
        }
    }
  }

  lemma {:induction false} MemberConverts(src: Type, dst: Type, i: nat)
    requires WellFormed(dst) && AlikeThroughout(src, dst) && dst.Compound? && i < |dst.members|
    requires SourceIndex(src, dst.members[i].name) >= 0
    ensures Convertible(src.members[SourceIndex(src, dst.members[i].name)].mtype, dst.members[i].mtype)
    decreases dst, 0
  {
    var s, d := src.members[SourceIndex(src, dst.members[i].name)].mtype, dst.members[i].mtype;
    forall r | TypesAt(s, d, r).Some? ensures Alike(TypesAt(s, d, r).value.0, TypesAt(s, d, r).value.1) {
      assert TypesAt(src, dst, By(i, r)) == TypesAt(s, d, r);
    }
    MemberInside(dst, i);
    AlikeConverts(s, d);
  }

  /** Two types convert if and only if wherever they meet they are of one kind, and arrays of one
      length. */
  lemma ConvertibleIff(src: Type, dst: Type)
    requires WellFormed(dst)
    ensures Convertible(src, dst) <==> AlikeThroughout(src, dst)
  {
    if Convertible(src, dst) {
      forall r | TypesAt(src, dst, r).Some?
        ensures Alike(TypesAt(src, dst, r).value.0, TypesAt(src, dst, r).value.1)
      {
        ConvertibleAlike(src, dst, r);
      }
    }
    if AlikeThroughout(src, dst) {
      AlikeConverts(src, dst);
    }
    hide Convertible, Alike, TypesAt;
  }
}
