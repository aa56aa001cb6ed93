/** The traversal code itself: group objects with reference counts, and a path buffer into which
    string ends are written for the time of each link lookup. */
module GroupRefs {
  import opened Codec
  import opened Namespace

  /** An open group. `freed` records that its memory was released. */
  class GroupObj {
    const oid: uint64
    var rc: int
    var freed: bool

    constructor (oid: uint64)
      ensures this.oid == oid && rc == 1 && !freed
      ensures forall g: GroupObj {:trigger g.freed} :: fresh(g) ==> g == this
    {
      this.oid := oid;
      rc, freed := 1, false;
    }

    /** The object may be used: somebody holds a reference. */
    ghost predicate Live()
      reads this
    {
      rc > 0 && !freed
    }
  }

  /** Drops one reference; the last one releases the group. */
  method GroupClose(grp: GroupObj)
    requires grp.Live()
    modifies grp
    ensures grp.rc == old(grp.rc) - 1
    ensures grp.freed <==> grp.rc == 0
    ensures forall g: GroupObj {:trigger g.freed} :: !fresh(g)
  {
    grp.rc := grp.rc - 1;
    if grp.rc == 0 {
      grp.freed := true;
    }
  }

  /** Opens a group by oid: a fresh object with one reference, if there is such a group. */
  method GroupOpen(groups: Groups, oid: uint64) returns (grp: GroupObj?)
    ensures grp != null <==> oid in groups
    ensures grp != null ==> fresh(grp) && grp.oid == oid && grp.rc == 1 && grp.Live()
    ensures forall g: GroupObj :: fresh(g) && g != grp ==> g.freed
  {
    if oid in groups {
      grp := new GroupObj(oid);
    } else {
      grp := null;
    }
  }

  /** A C string: the buffer from `at` holds s and then a NUL. */
  ghost predicate StringAt(buf: seq<byte>, at: nat, s: seq<byte>) {
    && at + |s| < |buf| && buf[at..at + |s|] == s && buf[at + |s|] == 0
    && IsCString(s)
  }

  /** The item that a path is relative to. */
  datatype Item = OfGroup(grp: GroupObj) | OfFile | OfOther

  ghost predicate ItemLive(item: Item)
    reads if item.OfGroup? then {item.grp} else {}
  {
    item.OfGroup? ==> item.grp.Live()
  }

  /** The objects whose counts a traversal may move for a while. */
  ghost function Held(root: GroupObj, item: Item): set<GroupObj> {
    if item.OfGroup? then {root, item.grp} else {root}
  }

  /** A traversal holds a reference of its own on a group: beside the caller's, or the only one. */
  ghost predicate Counted(root: GroupObj, item: Item, cur: GroupObj)
    reads cur
  {
    cur.Live() && if cur in Held(root, item) then cur.rc > 1 else cur.rc == 1
  }

  /** The oid that a relative path starts from. */
  function ItemOid(item: Item): uint64 {
    if item.OfGroup? then item.grp.oid else ROOT_OID
  }

  /** What a traversal from an item returns. */
  ghost function TraverseFrom(groups: Groups, item: Item, path: Name, fuel: nat): Outcome<(uint64, Name)> {
    if item.OfOther? && !(path != [] && path[0] == SLASH) then Failure
    else
      var (start, rest) := StartOf(ItemOid(item), path);
      Traverse(groups, start, rest, fuel)
  }

  /** strchr for the path separator: its position, or that of the NUL. */
  method FindSlash(path: array<byte>, at: nat, ghost s: Name) returns (found: bool, i: nat)
    requires StringAt(path[..], at, s)
    ensures i == at + SlashAt(s) && (found <==> SlashAt(s) < |s|)
    ensures forall g: GroupObj {:trigger g.freed} :: !fresh(g)
  {
    i := at;
    while path[i] != 0 && path[i] != SLASH
      invariant at <= i <= at + |s|
      invariant forall k :: at <= k < i ==> path[k] != SLASH
      decreases |s| + at - i
    {
      assert path[i] == path[..][i];
      i := i + 1;
    }
    found := path[i] != 0;
    assert forall k :: 0 <= k < |s| ==> s[k] == path[..][at..at + |s|][k] == path[at + k];
    SlashUnique(s, i - at);
  }

  lemma SliceTail(buf: seq<byte>, at: nat, n: nat, k: nat)
    requires at + n <= |buf| && k <= n
    ensures buf[at..at + n][k..] == buf[at + k..at + n]
  {
  }

  lemma StringTail(s: seq<byte>, k: nat)
    requires IsCString(s) && k <= |s|
    ensures IsCString(s[..k]) && IsCString(s[k..])
  {
  }

  /** The rest of a path behind its first separator. */
  lemma TailString(buf: seq<byte>, at: nat, s: Name)
    requires StringAt(buf, at, s) && SlashAt(s) < |s|
    ensures StringAt(buf, at + SlashAt(s) + 1, s[SlashAt(s) + 1..])
  {
    hide IsCString;
    hide SlashAt;
    var i := SlashAt(s);
    var t, from := s[i + 1..], at + i + 1;
    StringTail(s, i + 1);
    SliceTail(buf, at, |s|, i + 1);
    assert from + |t| == at + |s|;
    assert buf[from..from + |t|] == t;
  }

  /** The first component of a path, once its separator is overwritten by a NUL. */
  lemma HeadString(buf: seq<byte>, at: nat, s: Name)
    requires StringAt(buf, at, s) && SlashAt(s) < |s|
    ensures StringAt(buf[at + SlashAt(s) := 0], at, s[..SlashAt(s)])
  {
    hide IsCString;
    hide SlashAt;
    var i := SlashAt(s);
    StringTail(s, i);
    var patched := buf[at + i := 0];
    assert forall k :: 0 <= k < i ==> patched[at + k] == buf[at + k] == buf[at..at + |s|][k] == s[k];
    assert patched[at..at + i] == s[..i];
  }

  method ReadString(buf: array<byte>, at: nat, ghost s: Name) returns (r: Name)
    requires StringAt(buf[..], at, s)
    ensures r == s
    ensures forall g: GroupObj {:trigger g.freed} :: !fresh(g)
  {
    r := [];
    var i := at;
    assert forall k :: 0 <= k < |s| ==> s[k] == buf[..][at..at + |s|][k] == buf[at + k];
    while buf[i] != 0
      invariant at <= i <= at + |s| && r == s[..i - at]
      decreases at + |s| - i
    {
      r := r + [buf[i]];
      i := i + 1;
    }
  }

  method NewString(s: Name) returns (buf: array<byte>)
    requires IsCString(s)
    ensures fresh(buf) && StringAt(buf[..], 0, s)
    ensures forall g: GroupObj {:trigger g.freed} :: !fresh(g)
  {
    buf := new byte[|s| + 1](i requires 0 <= i => if i < |s| then s[i] else 0);
    assert buf[..][0..|s|] == s;
    assert forall g: GroupObj {:trigger g.freed} :: g as object != buf as object;
  }

  /** One reference moved from one object to another (or from or to an object that the caller
      does not hold); the caller's objects stay alive. */
  twostate predicate CountsMoved(root: GroupObj, item: Item, new from: GroupObj?, new to: GroupObj?)
    reads root, if item.OfGroup? then {item.grp} else {}
  {
    && root.Live() && ItemLive(item)
    && root.rc == old(root.rc) - (if from == root then 1 else 0) + (if to == root then 1 else 0)
    && (item.OfGroup? ==>
          item.grp.rc == old(item.grp.rc) - (if from == item.grp then 1 else 0) + (if to == item.grp then 1 else 0))
  }

  /** Follows the link named by a C string in a group. All counts end as they began, and every
      group opened on the way is released. */
  method LinkFollow(groups: Groups, root: GroupObj, grp: GroupObj, name: array<byte>, at: nat,
                    ghost s: Name, ghost fuel: nat) returns (ok: bool, oid: uint64)
    requires root.Live() && root.oid == ROOT_OID && grp.Live()
    requires StringAt(name[..], at, s)
    requires Follow(groups, grp.oid, s, fuel) != OutOfFuel
    modifies root, grp
    ensures CountsMoved(root, OfGroup(grp), null, null)
    ensures Follow(groups, grp.oid, s, fuel) == if ok then Found(oid) else Failure
    ensures forall target: uint64 :: StoredLink(groups, grp.oid, s, Hard(target)) ==> ok && oid == target
    ensures forall g: GroupObj :: fresh(g) ==> g.freed
    decreases fuel, 0
  {
    forall target: uint64 | StoredLink(groups, grp.oid, s, Hard(target))
      ensures Follow(groups, grp.oid, s, fuel) == Found(target)
    {
      StoredHard(groups, grp.oid, s, target, fuel);
    }
    hide StoredLink;
    ok, oid := false, 0;
    var key := ReadString(name, at, s);
    match LinkAt(groups, grp.oid, key) {
      case Malformed =>
      case Value(Hard(target)) =>
        ok, oid := true, target;
      case Value(Soft(target)) =>
        ok, oid := FollowSoft(groups, root, grp, target, fuel - 1);
    }
  }

  /** Resolves the target of a soft link that is stored in a group. The group that the target leads
      to is released again, and so is every other one opened on the way. */
  method FollowSoft(groups: Groups, root: GroupObj, grp: GroupObj, target: Name, ghost fuel: nat)
    returns (ok: bool, oid: uint64)
    requires root.Live() && root.oid == ROOT_OID && grp.Live() && IsCString(target)
    requires FollowTarget(groups, grp.oid, target, fuel) != OutOfFuel
    modifies root, grp
    ensures CountsMoved(root, OfGroup(grp), null, null)
    ensures FollowTarget(groups, grp.oid, target, fuel) == if ok then Found(oid) else Failure
    ensures forall g: GroupObj :: fresh(g) ==> g.freed
    decreases fuel, 5
  {
    TargetFrom(groups, grp, target, fuel);
    hide Traverse, TraverseFrom, Follow, FollowTarget, StartOf, StringAt;
    ok, oid := false, 0;
    var path := NewString(target);
    var tgt, base;
    ghost var bs;
    tgt, base, bs := GroupTraverse(groups, root, OfGroup(grp), path, target, fuel);
    if tgt != null {
      ok, oid := FollowLast(groups, root, grp, tgt, path, base, bs, fuel);
    }
  }

  /** The target of a soft link, seen as a traversal from the group that holds the link. */
  lemma TargetFrom(groups: Groups, grp: GroupObj, target: Name, fuel: nat)
    ensures var t := TraverseFrom(groups, OfGroup(grp), target, fuel);
      FollowTarget(groups, grp.oid, target, fuel) ==
        match t {
          case OutOfFuel => OutOfFuel
          case Failure => Failure
          case Found(last) =>
            if last.1 == [] || last.1 == [DOT] then Found(last.0) else Follow(groups, last.0, last.1, fuel)
        }
  {
    TargetStep(groups, grp.oid, target, fuel);
    hide Traverse, Follow, FollowTarget, StartOf;
  }

  lemma EmptyOrDot(buf: seq<byte>, at: nat, s: Name)
    requires StringAt(buf, at, s)
    ensures buf[at] == 0 <==> s == []
    ensures s != [] ==> at + 1 < |buf| && ((buf[at] == DOT && buf[at + 1] == 0) <==> s == [DOT])
  {
    var here := buf[at..at + |s|];
    if s != [] {
      assert buf[at] == here[0] == s[0];
      if |s| > 1 {
        assert buf[at + 1] == here[1] == s[1];
      }
    }
  }

  /** The last component of a soft link's target, in the group that the other components led to:
      none, or a dot, stands for that group itself. The reference on that group is given up. */
  method FollowLast(groups: Groups, root: GroupObj, grp: GroupObj, tgt: GroupObj, path: array<byte>, base: nat,
                    ghost bs: Name, ghost fuel: nat) returns (ok: bool, oid: uint64)
    requires root.Live() && root.oid == ROOT_OID && grp.Live()
    requires Counted(root, OfGroup(grp), tgt)
    requires StringAt(path[..], base, bs)
    requires bs == [] || bs == [DOT] || Follow(groups, tgt.oid, bs, fuel) != OutOfFuel
    modifies root, tgt
    ensures CountsMoved(root, OfGroup(grp), tgt, null)
    ensures tgt !in Held(root, OfGroup(grp)) ==> tgt.freed
    ensures if bs == [] || bs == [DOT] then ok && oid == tgt.oid
            else Follow(groups, tgt.oid, bs, fuel) == if ok then Found(oid) else Failure
    ensures forall g: GroupObj :: fresh(g) ==> g.freed
    decreases fuel, 1
  {
    EmptyOrDot(path[..], base, bs);
    hide Follow;
    if path[base] == 0 || (path[base] == DOT && path[base + 1] == 0) {
      ok, oid := true, tgt.oid;
    } else {
      ok, oid := LinkFollow(groups, root, tgt, path, base, bs, fuel);
    }
    GroupClose(tgt);
  }

  /** Follows the link named by the first component of a path, writing a NUL over the separator
      for the time of the lookup. The buffer ends as it began. */
  method LinkFollowComp(groups: Groups, root: GroupObj, grp: GroupObj, path: array<byte>, at: nat, end: nat,
                        ghost s: Name, ghost fuel: nat) returns (ok: bool, oid: uint64)
    requires root.Live() && root.oid == ROOT_OID && grp.Live()
    requires StringAt(path[..], at, s) && end == at + SlashAt(s) && SlashAt(s) < |s|
    requires Follow(groups, grp.oid, s[..SlashAt(s)], fuel) != OutOfFuel
    modifies root, grp, path
    ensures path[..] == old(path[..])
    ensures CountsMoved(root, OfGroup(grp), null, null)
    ensures Follow(groups, grp.oid, s[..SlashAt(s)], fuel) == if ok then Found(oid) else Failure
    ensures forall g: GroupObj :: fresh(g) ==> g.freed
    decreases fuel, 1
  {
    ghost var was := path[..];
    var savedEnd := path[end];
    HeadString(was, at, s);
    path[end] := 0;
    assert path[..] == was[end := 0];
    ok, oid := LinkFollow(groups, root, grp, path, at, s[..SlashAt(s)], fuel);
    path[end] := savedEnd;
    assert path[..] == was;
  }

  /** Traverses a path from an item. The result, if any, carries one new reference; no other
      count moves, every other group opened on the way is released, and the path buffer ends as it
      began. */
  method GroupTraverse(groups: Groups, root: GroupObj, item: Item, path: array<byte>, ghost s: Name, ghost fuel: nat)
    returns (grp: GroupObj?, base: nat, ghost bs: Name)
    requires root.Live() && root.oid == ROOT_OID && ItemLive(item)
    requires StringAt(path[..], 0, s)
    requires TraverseFrom(groups, item, s, fuel) != OutOfFuel
    modifies root, if item.OfGroup? then {item.grp} else {}, path
    ensures path[..] == old(path[..])
    ensures CountsMoved(root, item, null, grp)
    ensures TraverseFrom(groups, item, s, fuel) == if grp != null then Found((grp.oid, bs)) else Failure
    ensures grp != null ==> Counted(root, item, grp) && (grp in Held(root, item) || fresh(grp))
    ensures forall g: GroupObj :: fresh(g) && g != grp ==> g.freed
    ensures grp != null ==> StringAt(path[..], base, bs)
    decreases fuel, 4
  {
    base, bs := 0, s;
    assert s != [] ==> path[..][0..|s|][0] == s[0];
    if path[0] == SLASH {
      grp := root;
      base, bs := 1, s[1..];
      assert path[..][1..|s|] == path[..][0..|s|][1..];
    } else {
      match item {
        case OfGroup(g) => grp := g;
        case OfFile => grp := root;
        case OfOther =>
          grp := null;
          return;
      }
    }
    grp.rc := grp.rc + 1;
    grp, base, bs := TraverseLoop(groups, root, item, path, grp, base, bs, fuel);
  }

  /** Exchanges the reference on a group for one on the group that the next component leads to. A
      group that the caller does not hold is released by that. */
  method NextGroup(groups: Groups, root: GroupObj, item: Item, cur: GroupObj, path: array<byte>, at: nat, end: nat,
                   ghost s: Name, ghost fuel: nat) returns (next: GroupObj?)
    requires root.Live() && root.oid == ROOT_OID && ItemLive(item)
    requires Counted(root, item, cur)
    requires StringAt(path[..], at, s) && end == at + SlashAt(s) && SlashAt(s) < |s|
    requires Follow(groups, cur.oid, s[..SlashAt(s)], fuel) != OutOfFuel
    modifies root, cur, if item.OfGroup? then {item.grp} else {}, path
    ensures path[..] == old(path[..])
    ensures CountsMoved(root, item, cur, next)
    ensures next != null ==> fresh(next) && next.rc == 1 && next.Live()
    ensures cur !in Held(root, item) ==> cur.freed
    ensures forall g: GroupObj :: fresh(g) && g != next ==> g.freed
    ensures var f := Follow(groups, cur.oid, s[..SlashAt(s)], fuel);
      if next != null then f == Found(next.oid) && next.oid in groups else f.Found? ==> f.value !in groups
    decreases fuel, 2
  {
    next := null;
    var ok, oid := LinkFollowComp(groups, root, cur, path, at, end, s, fuel);
    GroupClose(cur);
    if ok {
      next := GroupOpen(groups, oid);
    }
  }

  /** The loop of the traversal, over the components of the path from position `at` on. It takes
      over the reference on the group it starts from. */
  method TraverseLoop(groups: Groups, root: GroupObj, item: Item, path: array<byte>,
                      start: GroupObj, at: nat, ghost s: Name, ghost fuel: nat)
    returns (grp: GroupObj?, base: nat, ghost bs: Name)
    requires root.Live() && root.oid == ROOT_OID && ItemLive(item)
    requires start in Held(root, item) && start.rc > 1
    requires StringAt(path[..], at, s)
    requires Traverse(groups, start.oid, s, fuel) != OutOfFuel
    modifies root, if item.OfGroup? then {item.grp} else {}, path
    ensures path[..] == old(path[..])
    ensures CountsMoved(root, item, start, grp)
    ensures Traverse(groups, start.oid, s, fuel) == if grp != null then Found((grp.oid, bs)) else Failure
    ensures grp != null ==> Counted(root, item, grp) && (grp in Held(root, item) || fresh(grp))
    ensures forall g: GroupObj :: fresh(g) && g != grp ==> g.freed
    ensures grp != null ==> StringAt(path[..], base, bs)
    decreases fuel, 3
  {
    hide Traverse;
    hide Follow;
    hide StringAt;
    hide SlashAt;
    var cur: GroupObj := start;
    base, bs := at, s;
    var found, end := FindSlash(path, base, bs);
    while found
      invariant path[..] == old(path[..])
      invariant StringAt(path[..], base, bs)
      invariant end == base + SlashAt(bs) && (found <==> SlashAt(bs) < |bs|)
      invariant CountsMoved(root, item, start, cur)
      invariant Counted(root, item, cur) && (cur in Held(root, item) || fresh(cur))
      invariant forall g: GroupObj :: fresh(g) && g != cur ==> g.freed
      invariant Traverse(groups, cur.oid, bs, fuel) == Traverse(groups, start.oid, s, fuel)
      decreases |bs|
    {
      TraverseStep(groups, cur.oid, bs, fuel);
      if end == base {
        GroupClose(cur);
        grp := null;
        return;
      }
      var next := NextGroup(groups, root, item, cur, path, base, end, bs, fuel);
      if next == null {
        grp := null;
        return;
      }
      cur := next;
      TailString(path[..], base, bs);
      bs := bs[SlashAt(bs) + 1..];
      base := end + 1;
      found, end := FindSlash(path, base, bs);
    }
    TraverseStep(groups, cur.oid, bs, fuel);
    grp := cur;
  }
}
