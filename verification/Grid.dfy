/** Coordinate vectors: row-major order, linear offsets, and the grid of chunks. */
module Grid {

  type Coord = seq<int>

  /** a and b first differ in dimension k, where a is smaller. */
  ghost predicate LessAt(a: Coord, b: Coord, k: int) {
    |a| == |b| && 0 <= k < |a| && a[..k] == b[..k] && a[k] < b[k]
  }

  /** Row-major order on vectors of the same rank. */
  ghost predicate Less(a: Coord, b: Coord) {
    exists k :: LessAt(a, b, k)
  }

  lemma LessIrreflexive(a: Coord)
    ensures !Less(a, a)
  {
  }

  lemma LessTransitive(a: Coord, b: Coord, c: Coord)
    requires Less(a, b) && Less(b, c)
    ensures Less(a, c)
  {
    var j, k :| LessAt(a, b, j) && LessAt(b, c, k);
    var m := if j <= k then j else k;
    assert a[..m] == a[..j][..m] == b[..j][..m] == b[..m];
    assert b[..m] == b[..k][..m] == c[..k][..m] == c[..m];
    assert j > m ==> a[m] == a[..j][m] == b[..j][m] == b[m];
    assert k > m ==> b[m] == b[..k][m] == c[..k][m] == c[m];
    assert LessAt(a, c, m);
  }

  lemma {:induction false} LessTotal(a: Coord, b: Coord)
    requires |a| == |b| && a != b
    ensures Less(a, b) || Less(b, a)
  {
    var k := 0;
    while k < |a| && a[k] == b[k]
      invariant 0 <= k <= |a| && a[..k] == b[..k]
    {
      assert a[..k + 1] == a[..k] + [a[k]] && b[..k + 1] == b[..k] + [b[k]];
      k := k + 1;
    }
    assert a[..|a|] == a && b[..|b|] == b;
    assert LessAt(a, b, k) || LessAt(b, a, k);
  }

  lemma LessAsymmetric(a: Coord, b: Coord)
    requires Less(a, b)
    ensures !Less(b, a)
  {
    if Less(b, a) {
      LessTransitive(a, b, a);
      LessIrreflexive(a);
    }
  }

  /** Strictly increasing in row-major order, so without repetition. */
  ghost predicate Sorted(pts: seq<Coord>) {
    forall i, j :: 0 <= i < j < |pts| ==> Less(pts[i], pts[j])
  }

  // ----- vectors -----

  function Sub(a: Coord, b: Coord): (c: Coord)
    requires |a| == |b|
    ensures |c| == |a|
  {
    seq(|a|, d requires 0 <= d < |a| => a[d] - b[d])
  }

  lemma SubOrder(a: Coord, b: Coord, c: Coord)
    requires |a| == |b| == |c|
    ensures Less(Sub(a, c), Sub(b, c)) <==> Less(a, b)
  {
    if Less(a, b) {
      var k :| LessAt(a, b, k);
      forall d | 0 <= d < k ensures a[d] == b[d] { assert a[..k][d] == b[..k][d]; }
      assert LessAt(Sub(a, c), Sub(b, c), k);
    }
    if Less(Sub(a, c), Sub(b, c)) {
      var k :| LessAt(Sub(a, c), Sub(b, c), k);
      forall d | 0 <= d < k ensures a[d] == b[d] { assert Sub(a, c)[..k][d] == Sub(b, c)[..k][d]; }
      assert LessAt(a, b, k);
    }
  }

  // ----- extents and linear offsets -----

  predicate InExtent(p: Coord, dims: seq<nat>) {
    |p| == |dims| && forall d :: 0 <= d < |p| ==> 0 <= p[d] < dims[d]
  }

  function Size(dims: seq<nat>): nat {
    if dims == [] then 1 else dims[0] * Size(dims[1..])
  }

  /** The row-major position of p among all points of the extent. */
  function Linear(p: Coord, dims: seq<nat>): (n: nat)
    requires InExtent(p, dims)
    ensures n < Size(dims)
    decreases dims
  {
    if dims == [] then 0
    else
      var rest := Linear(p[1..], dims[1..]);
      LessRow(p[0], dims[0], rest, Size(dims[1..]));
      p[0] * Size(dims[1..]) + rest
  }

  lemma LessRow(a: nat, b: nat, r: nat, s: nat)
    requires a < b && r < s
    ensures a * s + r < b * s
  {
    assert (a + 1) * s <= b * s;
  }

  /** Row-major order is the order of linear positions. */
  lemma {:induction false} LinearMonotone(p: Coord, q: Coord, dims: seq<nat>)
    requires InExtent(p, dims) && InExtent(q, dims) && Less(p, q)
    ensures Linear(p, dims) < Linear(q, dims)
    decreases dims
  {
    var k :| LessAt(p, q, k);
    var s := Size(dims[1..]);
    if k == 0 {
      LessRow(p[0], q[0], Linear(p[1..], dims[1..]), s);
    } else {
      assert p[0] == p[..k][0] == q[..k][0] == q[0];
      assert p[1..][..k - 1] == p[..k][1..] == q[..k][1..] == q[1..][..k - 1];
      assert LessAt(p[1..], q[1..], k - 1);
      LinearMonotone(p[1..], q[1..], dims[1..]);
    }
  }

  lemma LinearInjective(p: Coord, q: Coord, dims: seq<nat>)
    requires InExtent(p, dims) && InExtent(q, dims) && Linear(p, dims) == Linear(q, dims)
    ensures p == q
  {
    if p != q {
      LessTotal(p, q);
      if Less(p, q) {
        LinearMonotone(p, q, dims);
      } else {
        LinearMonotone(q, p, dims);
      }
    }
  }

  // ----- chunks -----

  /** Chunk dimensions are positive in every dimension. */
  predicate ChunkShape(dims: seq<nat>) {
    forall d :: 0 <= d < |dims| ==> dims[d] > 0
  }

  function RoundDown(x: int, c: nat): (r: int)
    requires c > 0
    ensures r % c == 0 && r <= x < r + c
  {
    MultipleOf(x / c, c);
    x / c * c
  }

  lemma {:induction false} ScaleOrder(i: int, j: int, c: nat)
    requires i < j
    ensures i * c + c <= j * c
    decreases j - i
  {
    ScaleSucc(j - 1, c);
    if i + 1 < j {
      ScaleOrder(i, j - 1, c);
    }
  }

  lemma ScaleSucc(i: int, c: nat)
    ensures (i + 1) * c == i * c + c
  {
  }

  lemma MultipleOf(k: int, c: nat)
    requires c > 0
    ensures k * c % c == 0
  {
    var n := k * c;
    var q := n / c;
    assert q * c <= n < q * c + c && n % c == n - q * c;
    if q < k {
      ScaleOrder(q, k, c);
      assert false;
    } else if k < q {
      ScaleOrder(k, q, c);
      assert false;
    }
  }

  lemma NextMultiple(a: int, b: int, c: nat)
    requires c > 0 && a % c == 0 && b % c == 0 && a < b
    ensures a + c <= b && (a + c) % c == 0
  {
    var i, j := a / c, b / c;
    assert a == i * c && b == j * c;
    if j < i {
      ScaleOrder(j, i, c);
      assert false;
    }
    ScaleOrder(i, j, c);
    MultipleOf(i + 1, c);
    assert a + c == (i + 1) * c;
  }

  /** The corner of the chunk that a point lies in. */
  function ChunkOf(p: Coord, chunk: seq<nat>): (c: Coord)
    requires |p| == |chunk| && ChunkShape(chunk)
    ensures |c| == |p| && Corner(c, chunk) && InBox(p, c, chunk)
  {
    seq(|p|, d requires 0 <= d < |p| => RoundDown(p[d], chunk[d]))
  }

  /** A vector whose coordinates are multiples of the chunk dimensions. */
  predicate Corner(c: Coord, chunk: seq<nat>)
    requires ChunkShape(chunk)
  {
    |c| == |chunk| && forall d :: 0 <= d < |c| ==> c[d] % chunk[d] == 0
  }

  /** p lies in the box of shape dims with its lowest corner at start. */
  predicate InBox(p: Coord, start: Coord, dims: seq<nat>) {
    |p| == |start| == |dims| && forall d :: 0 <= d < |p| ==> start[d] <= p[d] < start[d] + dims[d]
  }

  /** The box at a corner holds exactly the points of that chunk. */
  lemma InBoxIffChunkOf(p: Coord, c: Coord, chunk: seq<nat>)
    requires |p| == |chunk| && ChunkShape(chunk) && Corner(c, chunk)
    ensures InBox(p, c, chunk) <==> ChunkOf(p, chunk) == c
  {
    if InBox(p, c, chunk) {
      var q := ChunkOf(p, chunk);
      forall d | 0 <= d < |p| ensures q[d] == c[d] {
        if q[d] < c[d] {
          NextMultiple(q[d], c[d], chunk[d]);
        } else if c[d] < q[d] {
          NextMultiple(c[d], q[d], chunk[d]);
        }
      }
    }
  }
}
