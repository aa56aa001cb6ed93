/** Path resolution: following links, traversing paths, and the reference counts of the group
    objects on the way. */
module Namespace {
  import opened Codec

  const SLASH: byte := '/' as int
  const DOT: byte := '.' as int
  const ROOT_OID: uint64 := 1

  type Name = seq<byte>

  /** The stored groups: for each oid that opens as a group, its links in stored form. */
  type Groups = map<uint64, map<Name, seq<byte>>>

  /** Failure stands for every error return; OutOfFuel for a resolution deeper than its fuel. */
  datatype Outcome<T> = Found(value: T) | Failure | OutOfFuel

  function UpToNul(s: seq<byte>): (r: seq<byte>)
    ensures IsCString(r)
  {
    if s == [] || s[0] == 0 then [] else
      var r := UpToNul(s[1..]);
      assert forall i :: 0 < i < |[s[0]] + r| ==> ([s[0]] + r)[i] == r[i - 1];
      [s[0]] + r
  }

  /** The link stored in group g under a name; the target of a soft link is a C string. */
  function LinkAt(groups: Groups, g: uint64, name: Name): Decoded<Link> {
    if g !in groups || name !in groups[g] then Malformed
    else
      match DecodeLink(groups[g][name])
      case Malformed => Malformed
      case Value(Hard(oid)) => Value(Hard(oid))
      case Value(Soft(target)) => Value(Soft(UpToNul(target)))
  }

  /** Where the first path separator is, or the length of the path if it has none. */
  function SlashAt(path: Name): (i: nat)
    ensures i <= |path|
    ensures forall k :: 0 <= k < i ==> path[k] != SLASH
    ensures i < |path| ==> path[i] == SLASH
  {
    if path == [] || path[0] == SLASH then 0 else 1 + SlashAt(path[1..])
  }

  /** A path starts at the root if it begins with a separator, else at the given group. */
  function StartOf(g: uint64, path: Name): (uint64, Name) {
    if path != [] && path[0] == SLASH then (ROOT_OID, path[1..]) else (g, path)
  }

  /** The oid that a link leads to. The fuel bounds the nesting of soft links. */
  function Follow(groups: Groups, g: uint64, name: Name, fuel: nat): Outcome<uint64>
    decreases fuel, 0
  {
    match LinkAt(groups, g, name)
    case Malformed => Failure
    case Value(Hard(oid)) => Found(oid)
    case Value(Soft(target)) =>
      if fuel == 0 then OutOfFuel else FollowTarget(groups, g, target, fuel - 1)
  }

  /** The oid that the target path of a soft link in group g leads to. */
  function FollowTarget(groups: Groups, g: uint64, target: Name, fuel: nat): Outcome<uint64>
    decreases fuel, |target| + 2
  {
    var (start, rest) := StartOf(g, target);
    match Traverse(groups, start, rest, fuel)
    case OutOfFuel => OutOfFuel
    case Failure => Failure
    case Found((last, base)) =>
      if base == [] || base == [DOT] then Found(last) else Follow(groups, last, base, fuel)
  }

  /** The group that holds the last component of a path, and that component. An empty component
      before a separator, which the source excludes by an assertion, is a failure. */
  function Traverse(groups: Groups, g: uint64, path: Name, fuel: nat): Outcome<(uint64, Name)>
    decreases fuel, |path| + 1
  {
    var i := SlashAt(path);
    if i == |path| then Found((g, path))
    else if i == 0 then Failure
    else
      match Follow(groups, g, path[..i], fuel)
      case OutOfFuel => OutOfFuel
      case Failure => Failure
      case Found(oid) => if oid in groups then Traverse(groups, oid, path[i + 1..], fuel) else Failure
  }

  /** One step of a traversal, case by case. */
  lemma TraverseStep(groups: Groups, g: uint64, path: Name, fuel: nat)
    ensures var i := SlashAt(path);
      var t := Traverse(groups, g, path, fuel);
      && (i == |path| ==> t == Found((g, path)))
      && (i == 0 < |path| ==> t == Failure)
      && (0 < i < |path| ==>
            var f := Follow(groups, g, path[..i], fuel);
            && (f == OutOfFuel ==> t == OutOfFuel)
            && (f.Found? && f.value in groups ==> t == Traverse(groups, f.value, path[i + 1..], fuel))
            && (f == Failure || (f.Found? && f.value !in groups) ==> t == Failure))
  {
  }

  /** The same for the target of a soft link. */
  lemma TargetStep(groups: Groups, g: uint64, target: Name, fuel: nat)
    ensures var (start, rest) := StartOf(g, target);
      var t, f := Traverse(groups, start, rest, fuel), FollowTarget(groups, g, target, fuel);
      && (t == OutOfFuel ==> f == OutOfFuel)
      && (t == Failure ==> f == Failure)
      && (t.Found? ==>
            f == if t.value.1 == [] || t.value.1 == [DOT] then Found(t.value.0)
                 else Follow(groups, t.value.0, t.value.1, fuel))
  {
    hide Traverse, StartOf;
  }

  // ----- what resolution promises -----

  lemma {:induction false} SlashUnique(path: Name, i: nat)
    requires i <= |path| && (forall k :: 0 <= k < i ==> path[k] != SLASH) && (i < |path| ==> path[i] == SLASH)
    ensures SlashAt(path) == i
  {
    var j := SlashAt(path);
    if j < i {
      assert false;
    }
  }

  /** The returned component holds no separator. */
  lemma {:induction false} NameHasNoSlash(groups: Groups, g: uint64, path: Name, fuel: nat)
    requires Traverse(groups, g, path, fuel).Found?
    ensures SLASH !in Traverse(groups, g, path, fuel).value.1
    decreases |path|
  {
    var i := SlashAt(path);
    if i < |path| {
      NameHasNoSlash(groups, Follow(groups, g, path[..i], fuel).value, path[i + 1..], fuel);
    }
  }

  /** What a link leads to, if that is a group. */
  function AsGroup(groups: Groups, f: Outcome<uint64>): Outcome<uint64> {
    if f.Found? && f.value !in groups then Failure else f
  }

  /** Resolving a whole path to a group: its last component is followed and must be a group. */
  function Resolve(groups: Groups, g: uint64, path: Name, fuel: nat): Outcome<uint64> {
    match Traverse(groups, g, path, fuel)
    case OutOfFuel => OutOfFuel
    case Failure => Failure
    case Found((last, base)) => if base == [] then Failure else AsGroup(groups, Follow(groups, last, base, fuel))
  }

  /** Resolving a path goes by its first component. */
  lemma ResolveStep(groups: Groups, g: uint64, path: Name, fuel: nat)
    ensures var i, f := SlashAt(path), Resolve(groups, g, path, fuel);
      && (path == [] || i == 0 ==> f == Failure)
      && (0 < i == |path| ==> f == AsGroup(groups, Follow(groups, g, path, fuel)))
      && (0 < i < |path| ==>
            var first := AsGroup(groups, Follow(groups, g, path[..i], fuel));
            f == if first.Found? then Resolve(groups, first.value, path[i + 1..], fuel) else first)
  {
    TraverseStep(groups, g, path, fuel);
    hide Traverse, Follow, SlashAt;
  }

  lemma WholeSlices(p: Name, q: Name)
    ensures var i, whole := SlashAt(p), p + [SLASH] + q;
      && SlashAt(whole) == i < |whole|
      && whole[..i] == p[..i]
      && whole[i + 1..] == if i == |p| then q else p[i + 1..] + [SLASH] + q
  {
    SlashUnique(p + [SLASH] + q, SlashAt(p));
    hide SlashAt;
    SlicesAround(p, [SLASH], q, SlashAt(p));
  }

  lemma SlicesAround<T>(p: seq<T>, sep: seq<T>, q: seq<T>, i: nat)
    requires |sep| == 1 && i <= |p|
    ensures (p + sep + q)[..i] == p[..i]
    ensures (p + sep + q)[i + 1..] == if i == |p| then q else p[i + 1..] + sep + q
  {
  }

  /** Traversal is compositional: traversing p/q is resolving p and then traversing q from there. */
  lemma {:induction false} TraverseComposes(groups: Groups, g: uint64, p: Name, q: Name, fuel: nat)
    ensures Traverse(groups, g, p + [SLASH] + q, fuel) ==
      match Resolve(groups, g, p, fuel) {
        case OutOfFuel => OutOfFuel
        case Failure => Failure
        case Found(h) => Traverse(groups, h, q, fuel)
      }
    decreases |p|
  {
    var i := SlashAt(p);
    WholeSlices(p, q);
    TraverseStep(groups, g, p + [SLASH] + q, fuel);
    ResolveStep(groups, g, p, fuel);
    assert i == |p| ==> p[..i] == p;
    hide Traverse, Resolve, Follow, SlashAt;
    if 0 < i < |p| {
      var first := AsGroup(groups, Follow(groups, g, p[..i], fuel));
      if first.Found? {
        TraverseComposes(groups, first.value, p[i + 1..], q, fuel);
      }
    }
  }

  /** The same for paths as users write them: absolute ones start at the root. */
  function TraversePath(groups: Groups, g: uint64, path: Name, fuel: nat): Outcome<(uint64, Name)> {
    var (start, rest) := StartOf(g, path);
    Traverse(groups, start, rest, fuel)
  }

  function ResolvePath(groups: Groups, g: uint64, path: Name, fuel: nat): Outcome<uint64> {
    var (start, rest) := StartOf(g, path);
    Resolve(groups, start, rest, fuel)
  }

  lemma PathComposes(groups: Groups, g: uint64, p: Name, q: Name, fuel: nat)
    requires p != []
    ensures TraversePath(groups, g, p + [SLASH] + q, fuel) ==
      match ResolvePath(groups, g, p, fuel) {
        case OutOfFuel => OutOfFuel
        case Failure => Failure
        case Found(h) => Traverse(groups, h, q, fuel)
      }
  {
    var (start, rest) := StartOf(g, p);
    assert StartOf(g, p + [SLASH] + q) == (start, rest + [SLASH] + q) by {
      assert (p + [SLASH] + q)[1..] == p[1..] + [SLASH] + q;
    }
    TraverseComposes(groups, start, rest, q, fuel);
  }

  // ----- resolution from the stored bytes -----

  /** Group g stores the link under that name. */
  ghost predicate StoredLink(groups: Groups, g: uint64, name: Name, l: Link) {
    g in groups && name in groups[g] && groups[g][name] == EncodeLink(l)
  }

  /** A stored hard link leads to its oid. */
  lemma StoredHard(groups: Groups, g: uint64, name: Name, oid: uint64, fuel: nat)
    requires StoredLink(groups, g, name, Hard(oid))
    ensures Follow(groups, g, name, fuel) == Found(oid)
  {
    LinkRoundTrip(Hard(oid), groups[g][name]);
    hide EncodeLink, DecodeLink;
  }

  lemma {:induction false} UpToNulOf(s: seq<byte>, rest: seq<byte>)
    requires IsCString(s) && (rest == [] || rest[0] == 0)
    ensures UpToNul(s + rest) == s
  {
    if s == [] {
      assert s + rest == rest;
    } else {
      assert IsCString(s[1..]) && (s + rest)[1..] == s[1..] + rest;
      UpToNulOf(s[1..], rest);
      assert s == [s[0]] + s[1..];
    }
  }

  /** A stored soft link leads where its path leads from the group that holds the link, or from the
      root: to the group that the path ends in if nothing or a dot comes last, else along the link of
      that name. What is stored behind a NUL does not matter. */
  lemma StoredSoft(groups: Groups, g: uint64, name: Name, path: Name, rest: seq<byte>, fuel: nat)
    requires IsCString(path) && (rest == [] || rest[0] == 0) && StoredLink(groups, g, name, Soft(path + rest))
    ensures Follow(groups, g, name, 0) == OutOfFuel
    ensures Follow(groups, g, name, fuel + 1) ==
      match TraversePath(groups, g, path, fuel) {
        case OutOfFuel => OutOfFuel
        case Failure => Failure
        case Found((h, last)) => if last == [] || last == [DOT] then Found(h) else Follow(groups, h, last, fuel)
      }
  {
    LinkRoundTrip(Soft(path + rest), groups[g][name]);
    UpToNulOf(path, rest);
    assert LinkAt(groups, g, name) == Value(Soft(path));
    hide EncodeLink, DecodeLink, LinkAt, UpToNul, Traverse, StartOf, IsCString;
  }

  /** Where nothing is stored, or nothing that begins with a link, nothing can be followed. */
  lemma NotStored(groups: Groups, g: uint64, name: Name, fuel: nat)
    requires g !in groups || name !in groups[g] || forall l :: !(EncodeLink(l) <= groups[g][name])
    ensures Follow(groups, g, name, fuel) == Failure
  {
    if g in groups && name in groups[g] {
      LinkRoundTrip(Hard(0), groups[g][name]);
    }
    hide EncodeLink, DecodeLink;
  }

  /** An absolute path starts at the root group, whichever group it is given to; any other starts at
      that group. */
  lemma PathStarts(groups: Groups, g: uint64, path: Name, fuel: nat)
    ensures TraversePath(groups, g, [SLASH] + path, fuel) == Traverse(groups, 1, path, fuel)
    ensures path == [] || path[0] != SLASH ==> TraversePath(groups, g, path, fuel) == Traverse(groups, g, path, fuel)
  {
    assert ([SLASH] + path)[1..] == path;
    hide Traverse;
  }

  /** A component of a path: something without a separator. */
  predicate IsComponent(name: Name) {
    name != [] && SLASH !in name
  }

  /** The components one after the other, and what comes last. */
  function PathOf(names: seq<Name>, last: Name): Name {
    if names == [] then last else names[0] + [SLASH] + PathOf(names[1..], last)
  }

  /** From group g, each name is stored as a hard link to the next group. */
  ghost predicate HardChain(groups: Groups, g: uint64, names: seq<Name>, oids: seq<uint64>)
    decreases |names|
  {
    && |names| == |oids|
    && (names != [] ==>
          && IsComponent(names[0]) && StoredLink(groups, g, names[0], Hard(oids[0])) && oids[0] in groups
          && HardChain(groups, oids[0], names[1..], oids[1..]))
  }

  lemma HeadOfPath(name: Name, rest: Name)
    requires IsComponent(name)
    ensures var path := name + [SLASH] + rest;
      SlashAt(path) == |name| && path[..|name|] == name && path[|name| + 1..] == rest
  {
    SlashUnique(name + [SLASH] + rest, |name|);
  }

  lemma {:induction false} TraverseHardChain(groups: Groups, g: uint64, names: seq<Name>, oids: seq<uint64>, last: Name,
                                             fuel: nat)
    requires HardChain(groups, g, names, oids) && SLASH !in last
    ensures Traverse(groups, g, PathOf(names, last), fuel) == Found((if oids == [] then g else oids[|oids| - 1], last))
    decreases |names|
  {
    if names == [] {
      SlashUnique(last, |last|);
    } else {
      HeadOfPath(names[0], PathOf(names[1..], last));
      StoredHard(groups, g, names[0], oids[0], fuel);
      TraverseHardChain(groups, oids[0], names[1..], oids[1..], last, fuel);
      TraverseStep(groups, g, PathOf(names, last), fuel);
      hide Traverse, Follow, SlashAt, StoredLink;
    }
  }

  /** A path over stored hard links ends in the group that the last of them names: from the given
      group, or from the root group if the path is absolute. */
  lemma HardPath(groups: Groups, g: uint64, names: seq<Name>, oids: seq<uint64>, last: Name, fuel: nat)
    requires HardChain(groups, g, names, oids) && SLASH !in last
    ensures TraversePath(groups, g, PathOf(names, last), fuel)
      == Found((if oids == [] then g else oids[|oids| - 1], last))
    ensures g == 1 ==> (forall h ::
      TraversePath(groups, h, [SLASH] + PathOf(names, last), fuel)
        == Found((if oids == [] then g else oids[|oids| - 1], last)))
  {
    var path := PathOf(names, last);
    TraverseHardChain(groups, g, names, oids, last, fuel);
    assert path == [] || path[0] != SLASH;
    PathStarts(groups, g, path, fuel);
    forall h ensures g == 1 ==> TraversePath(groups, h, [SLASH] + path, fuel) == Traverse(groups, g, path, fuel) {
      PathStarts(groups, h, path, fuel);
    }
    hide Traverse, TraversePath, HardChain, PathOf;
  }

  /** More fuel never changes an answer. */
  lemma {:induction false} FollowMonotone(groups: Groups, g: uint64, name: Name, fuel: nat, more: nat)
    requires fuel <= more && Follow(groups, g, name, fuel) != OutOfFuel
    ensures Follow(groups, g, name, more) == Follow(groups, g, name, fuel)
    decreases fuel, 0
  {
    hide Traverse;
    hide StartOf;
    hide LinkAt;
    var link := LinkAt(groups, g, name);
    if link.Value? && link.value.Soft? {
      var (start, rest) := StartOf(g, link.value.target);
      TraverseMonotone(groups, start, rest, fuel - 1, more - 1);
      var t := Traverse(groups, start, rest, fuel - 1);
      if t.Found? && t.value.1 != [] && t.value.1 != [DOT] {
        FollowMonotone(groups, t.value.0, t.value.1, fuel - 1, more - 1);
      }
    }
  }

  lemma {:induction false} TraverseMonotone(groups: Groups, g: uint64, path: Name, fuel: nat, more: nat)
    requires fuel <= more && Traverse(groups, g, path, fuel) != OutOfFuel
    ensures Traverse(groups, g, path, more) == Traverse(groups, g, path, fuel)
    decreases fuel, |path| + 1
  {
    var i := SlashAt(path);
    if 0 < i < |path| {
      FollowMonotone(groups, g, path[..i], fuel, more);
      var f := Follow(groups, g, path[..i], fuel);
      if f.Found? && f.value in groups {
        TraverseMonotone(groups, f.value, path[i + 1..], fuel, more);
      }
    }
  }

  // ----- termination -----

  /** A link: the group that holds it and its name. */
  type LinkId = (uint64, Name)

  predicate IsSoft(groups: Groups, a: LinkId) {
    LinkAt(groups, a.0, a.1).Value? && LinkAt(groups, a.0, a.1).value.Soft?
  }

  ghost predicate EndsWithin(groups: Groups, a: LinkId, fuel: nat) {
    Follow(groups, a.0, a.1, fuel) != OutOfFuel
  }

  /** Following the link ends, at whatever depth. */
  ghost predicate Ends(groups: Groups, a: LinkId) {
    exists fuel :: EndsWithin(groups, a, fuel)
  }

  /** Traversing the path from group g follows link b. */
  ghost predicate Visits(groups: Groups, g: uint64, path: Name, fuel: nat, b: LinkId)
    decreases |path|
  {
    var i := SlashAt(path);
    0 < i < |path| &&
    var f := Follow(groups, g, path[..i], fuel);
    b == (g, path[..i]) || (f.Found? && f.value in groups && Visits(groups, f.value, path[i + 1..], fuel, b))
  }

  /** Where the target of a soft link starts, and what is left of it. */
  function TargetOf(groups: Groups, a: LinkId): (uint64, Name)
    requires IsSoft(groups, a)
  {
    StartOf(a.0, LinkAt(groups, a.0, a.1).value.target)
  }

  /** Resolving the target of the soft link a follows link b. */
  ghost predicate TargetVisits(groups: Groups, a: LinkId, fuel: nat, b: LinkId)
    requires IsSoft(groups, a)
  {
    var (start, rest) := TargetOf(groups, a);
    var t := Traverse(groups, start, rest, fuel);
    Visits(groups, start, rest, fuel, b) || (t == Found(b) && b.1 != [] && b.1 != [DOT])
  }

  /** A traversal ends exactly when every link that it follows does. */
  lemma {:induction false} TraverseEndsIff(groups: Groups, g: uint64, path: Name, fuel: nat)
    ensures Traverse(groups, g, path, fuel) != OutOfFuel <==>
      forall b :: Visits(groups, g, path, fuel, b) ==> EndsWithin(groups, b, fuel)
    decreases |path|
  {
    var i := SlashAt(path);
    if 0 < i < |path| {
      var f := Follow(groups, g, path[..i], fuel);
      assert Visits(groups, g, path, fuel, (g, path[..i]));
      if f == OutOfFuel {
        assert !EndsWithin(groups, (g, path[..i]), fuel);
      } else if f.Found? && f.value in groups {
        TraverseEndsIff(groups, f.value, path[i + 1..], fuel);
        assert forall b :: Visits(groups, f.value, path[i + 1..], fuel, b) ==> Visits(groups, g, path, fuel, b);
      }
    }
  }

  /** Depth does not matter for what a traversal follows as long as it ends. */
  lemma {:induction false} VisitedEnds(groups: Groups, g: uint64, path: Name, fuel: nat, other: nat, b: LinkId)
    requires Traverse(groups, g, path, fuel) != OutOfFuel && Visits(groups, g, path, other, b)
    ensures EndsWithin(groups, b, fuel)
    decreases |path|
  {
    var i := SlashAt(path);
    if b != (g, path[..i]) {
      SameAnswer(groups, (g, path[..i]), fuel, other);
      VisitedEnds(groups, Follow(groups, g, path[..i], fuel).value, path[i + 1..], fuel, other, b);
    }
  }

  lemma SameAnswer(groups: Groups, a: LinkId, m: nat, n: nat)
    requires EndsWithin(groups, a, m) && EndsWithin(groups, a, n)
    ensures Follow(groups, a.0, a.1, m) == Follow(groups, a.0, a.1, n)
  {
    if m <= n {
      FollowMonotone(groups, a.0, a.1, m, n);
    } else {
      FollowMonotone(groups, a.0, a.1, n, m);
    }
  }

  lemma SoftFollow(groups: Groups, a: LinkId, fuel: nat)
    requires IsSoft(groups, a)
    ensures !EndsWithin(groups, a, 0)
    ensures var (start, rest) := TargetOf(groups, a);
      var t := Traverse(groups, start, rest, fuel);
      EndsWithin(groups, a, fuel + 1) <==>
        t == Failure || (t.Found? && (t.value.1 == [] || t.value.1 == [DOT] || EndsWithin(groups, t.value, fuel)))
  {
    var target := LinkAt(groups, a.0, a.1).value.target;
    assert Follow(groups, a.0, a.1, fuel + 1) == FollowTarget(groups, a.0, target, fuel);
    hide Traverse, StartOf;
  }

  /** If following a soft link ends, so does every link it follows on the way, one level lower. */
  lemma TargetVisitedEnds(groups: Groups, a: LinkId, fuel: nat, other: nat, b: LinkId)
    requires IsSoft(groups, a) && EndsWithin(groups, a, fuel) && TargetVisits(groups, a, other, b)
    ensures fuel > 0 && EndsWithin(groups, b, fuel - 1)
  {
    hide Traverse, Visits, TargetOf, EndsWithin;
    SoftFollow(groups, a, if fuel > 0 then fuel - 1 else 0);
    var (start, rest) := TargetOf(groups, a);
    if Visits(groups, start, rest, other, b) {
      VisitedEnds(groups, start, rest, fuel - 1, other, b);
    } else if fuel - 1 <= other {
      TraverseMonotone(groups, start, rest, fuel - 1, other);
    } else {
      TraverseMonotone(groups, start, rest, other, fuel - 1);
    }
  }

  /** And if every link that it follows ends, so does it, one level higher. */
  lemma TargetEnds(groups: Groups, a: LinkId, fuel: nat)
    requires IsSoft(groups, a) && forall b :: TargetVisits(groups, a, fuel, b) ==> EndsWithin(groups, b, fuel)
    ensures EndsWithin(groups, a, fuel + 1)
  {
    hide Traverse, Visits, TargetOf, EndsWithin;
    SoftFollow(groups, a, fuel);
    var (start, rest) := TargetOf(groups, a);
    assert forall b :: Visits(groups, start, rest, fuel, b) ==> TargetVisits(groups, a, fuel, b);
    TraverseEndsIff(groups, start, rest, fuel);
    var t := Traverse(groups, start, rest, fuel);
    if t.Found? && t.value.1 != [] && t.value.1 != [DOT] {
      assert TargetVisits(groups, a, fuel, t.value);
    }
  }

  // ----- exactly when -----

  type Ranking = LinkId -> nat

  /** The soft links among `links` are well-founded: the soft links that the target of one follows
      are again among them and have a smaller rank. */
  ghost predicate WellFounded(groups: Groups, links: LinkId -> bool, rank: Ranking) {
    forall a, fuel, b :: links(a) && IsSoft(groups, a) && TargetVisits(groups, a, fuel, b) && IsSoft(groups, b) ==>
      links(b) && rank(b) < rank(a)
  }

  /** The soft links that matter for link a can be ranked. */
  ghost predicate Rankable(groups: Groups, a: LinkId) {
    exists links: LinkId -> bool, rank: Ranking :: links(a) && WellFounded(groups, links, rank)
  }

  lemma {:induction false} RankedEnds(groups: Groups, links: LinkId -> bool, rank: Ranking, a: LinkId, fuel: nat)
    requires WellFounded(groups, links, rank) && (IsSoft(groups, a) ==> links(a) && rank(a) < fuel)
    ensures EndsWithin(groups, a, fuel)
    decreases fuel
  {
    if IsSoft(groups, a) {
      var less := fuel - 1;
      forall b | TargetVisits(groups, a, less, b) ensures EndsWithin(groups, b, less) {
        RankedEnds(groups, links, rank, b, less);
      }
      TargetEnds(groups, a, less);
    }
  }

  /** The least depth within which following the link ends. */
  ghost function Depth(groups: Groups, a: LinkId): (n: nat)
    requires Ends(groups, a)
    ensures EndsWithin(groups, a, n) && forall k :: 0 <= k < n ==> !EndsWithin(groups, a, k)
  {
    var fuel :| EndsWithin(groups, a, fuel);
    LeastFrom(groups, a, 0, fuel)
  }

  ghost function LeastFrom(groups: Groups, a: LinkId, k: nat, fuel: nat): (n: nat)
    requires k <= fuel && EndsWithin(groups, a, fuel)
    ensures k <= n && EndsWithin(groups, a, n) && forall j :: k <= j < n ==> !EndsWithin(groups, a, j)
    decreases fuel - k
  {
    if EndsWithin(groups, a, k) then k else LeastFrom(groups, a, k + 1, fuel)
  }

  lemma DepthDrops(groups: Groups, a: LinkId, fuel: nat, b: LinkId)
    requires Ends(groups, a) && IsSoft(groups, a) && TargetVisits(groups, a, fuel, b)
    ensures Ends(groups, b) && Depth(groups, b) < Depth(groups, a)
  {
    hide EndsWithin, TargetVisits;
    TargetVisitedEnds(groups, a, Depth(groups, a), fuel, b);
  }

  /** Following a link ends if and only if the soft links that its resolution follows are
      well-founded. */
  lemma FollowEndsIff(groups: Groups, a: LinkId)
    ensures Ends(groups, a) <==> Rankable(groups, a)
  {
    if Ends(groups, a) {
      var links: LinkId -> bool := b => Ends(groups, b);
      var rank: Ranking := b => if Ends(groups, b) then Depth(groups, b) else 0;
      forall b, fuel, c | links(b) && IsSoft(groups, b) && TargetVisits(groups, b, fuel, c) && IsSoft(groups, c)
        ensures links(c) && rank(c) < rank(b)
      {
        DepthDrops(groups, b, fuel, c);
      }
      assert links(a) && WellFounded(groups, links, rank);
    }
    if Rankable(groups, a) {
      var links: LinkId -> bool, rank: Ranking :| links(a) && WellFounded(groups, links, rank);
      RankedEnds(groups, links, rank, a, rank(a) + 1);
    }
  }

  ghost predicate WellFoundedAll(groups: Groups, rank: Ranking) {
    WellFounded(groups, _ => true, rank)
  }

  /** Every link of the file can be followed to an end if and only if one ranking serves all of
      its soft links. */
  lemma AllEndIff(groups: Groups)
    ensures (forall a :: Ends(groups, a)) <==> exists rank: Ranking :: WellFoundedAll(groups, rank)
  {
    if forall a :: Ends(groups, a) {
      var rank: Ranking := b => if Ends(groups, b) then Depth(groups, b) else 0;
      forall b, fuel, c | IsSoft(groups, b) && TargetVisits(groups, b, fuel, c) && IsSoft(groups, c)
        ensures rank(c) < rank(b)
      {
        DepthDrops(groups, b, fuel, c);
      }
      assert WellFoundedAll(groups, rank);
    }
    if rank: Ranking :| WellFoundedAll(groups, rank) {
      forall a ensures Ends(groups, a) {
        RankedEnds(groups, _ => true, rank, a, rank(a) + 1);
      }
    }
  }

  // ----- how deep -----

  /** The soft links of the file. */
  ghost function SoftLinks(groups: Groups): set<LinkId> {
    set g, name | g in groups && name in groups[g] && IsSoft(groups, (g, name)) :: (g, name)
  }

  ghost function EndingWithin(groups: Groups, n: nat): set<LinkId> {
    set a | a in SoftLinks(groups) && EndsWithin(groups, a, n)
  }

  /** A link of depth n + 1 follows one of depth exactly n. */
  lemma OneLevelLower(groups: Groups, a: LinkId, n: nat) returns (b: LinkId)
    requires EndsWithin(groups, a, n + 1) && !EndsWithin(groups, a, n) && n > 0
    ensures EndsWithin(groups, b, n) && !EndsWithin(groups, b, n - 1)
  {
    assert IsSoft(groups, a);
    hide *;
    var less: nat := n - 1;
    if forall c :: TargetVisits(groups, a, less, c) ==> EndsWithin(groups, c, less) {
      TargetEnds(groups, a, less);
      assert false;
    }
    b :| TargetVisits(groups, a, less, b) && !EndsWithin(groups, b, less);
    TargetVisitedEnds(groups, a, n + 1, less, b);
  }

  lemma SoftIsStored(groups: Groups, a: LinkId, n: nat)
    requires EndsWithin(groups, a, n + 1) && !EndsWithin(groups, a, n)
    ensures a in SoftLinks(groups)
  {
  }

  lemma {:induction false} Deeper(groups: Groups, a: LinkId, n: nat)
    requires EndsWithin(groups, a, n + 1) && !EndsWithin(groups, a, n)
    ensures |EndingWithin(groups, n + 1)| > n
    decreases n
  {
    SoftIsStored(groups, a, n);
    var less, more := EndingWithin(groups, n), EndingWithin(groups, n + 1);
    forall b | b in less ensures b in more {
      FollowMonotone(groups, b.0, b.1, n, n + 1);
    }
    assert a in more && a !in less;
    Larger(less, more, a);
    if n > 0 {
      var b := OneLevelLower(groups, a, n);
      Deeper(groups, b, n - 1);
    }
  }

  lemma Larger<T>(a: set<T>, b: set<T>, x: T)
    requires a <= b && x in b && x !in a
    ensures |a| < |b|
  {
    assert b == a + (b - a) && x in b - a;
    assert |b| == |a| + |b - a|;
  }

  /** No resolution that ends is nested deeper than there are soft links in the file: it is enough
      to try that depth. */
  lemma DepthBound(groups: Groups, a: LinkId)
    ensures Ends(groups, a) <==> EndsWithin(groups, a, |SoftLinks(groups)|)
  {
    if Ends(groups, a) {
      var n, total := Depth(groups, a), |SoftLinks(groups)|;
      if n > 0 {
        Deeper(groups, a, n - 1);
        Smaller(EndingWithin(groups, n), SoftLinks(groups));
      }
      FollowMonotone(groups, a.0, a.1, n, total);
    }
  }

  lemma Smaller<T>(a: set<T>, b: set<T>)
    requires a <= b
    ensures |a| <= |b|
  {
    assert b == a + (b - a) && |b| == |a| + |b - a|;
  }

  /** The same for traversing a path. */
  lemma TraverseDepthBound(groups: Groups, g: uint64, path: Name, fuel: nat)
    requires Traverse(groups, g, path, fuel) != OutOfFuel
    ensures Traverse(groups, g, path, |SoftLinks(groups)|) == Traverse(groups, g, path, fuel)
  {
    var total := |SoftLinks(groups)|;
    forall b | Visits(groups, g, path, total, b) ensures EndsWithin(groups, b, total) {
      VisitedEnds(groups, g, path, fuel, total, b);
      DepthBound(groups, b);
    }
    TraverseEndsIff(groups, g, path, total);
    if total <= fuel {
      TraverseMonotone(groups, g, path, total, fuel);
    } else {
      TraverseMonotone(groups, g, path, fuel, total);
    }
  }

  /** Resolution need not end: a soft link to itself exhausts any fuel. */
  lemma {:induction false} SelfLinkDiverges(groups: Groups, g: uint64, name: Name, fuel: nat)
    requires IsCString(name) && SLASH !in name && name != [] && name != [DOT]
    requires g in groups && name in groups[g] && groups[g][name] == EncodeLink(Soft(name))
    ensures Follow(groups, g, name, fuel) == OutOfFuel
  {
    LinkRoundTrip(Soft(name), []);
    UpToNulOfCString(name);
    SlashUnique(name, |name|);
    if fuel > 0 {
      assert StartOf(g, name) == (g, name) && Traverse(groups, g, name, fuel - 1) == Found((g, name));
      SelfLinkDiverges(groups, g, name, fuel - 1);
    }
  }

  lemma {:induction false} UpToNulOfCString(s: seq<byte>)
    requires IsCString(s)
    ensures UpToNul(s) == s
  {
    if s != [] {
      assert forall i :: 0 <= i < |s[1..]| ==> s[1..][i] == s[i + 1];
      UpToNulOfCString(s[1..]);
    }
  }
}
