/**
 * The spatial hash grid of `final_project/world.js` (`SpatialGrid`).
 *
 * The world's XZ rectangle is cut into `dimensions.x` by `dimensions.y` cells. Every cell
 * holds a doubly linked list of nodes, each pointing back to a client (the grid's record of
 * an entity). A client is linked into every cell of the inclusive index rectangle covered by
 * its footprint and remembers that rectangle and its node in each of those cells.
 *
 * List nodes live in an arena, `nodes`, addressed by `NodeId`; a `next`/`prev` link is an
 * optional id, and `cells` holds the head of each list. The ghost `Lists` gives each cell's
 * list as the sequence of its node ids from head to tail, and `Members(x, y)` the clients of
 * those nodes in the same order: the abstract value the operations are specified against.
 */
module World {
  import opened Wrappers
  import opened Utils

  /** `_bounds`: the lower and upper corners of the covered XZ rectangle. */
  datatype Bounds = Bounds(minX: real, minZ: real, maxX: real, maxZ: real)

  /** `_dimensions`: the number of cells along x and along z. */
  datatype Dims = Dims(x: int, y: int)

  datatype CellIndex = CellIndex(x: int, y: int)

  // -----------------------------------------------------------------------------------------
  // Cell index of a coordinate

  /** The lower edge of cell `i` when `[lo, hi)` is split into `n` equal cells. */
  function CellEdge(lo: real, hi: real, n: int, i: int): real
    requires n >= 1
  {
    lo + (i as real) * (hi - lo) / (n as real)
  }

  /** The coordinate lies in cell `i` of the `n` equal cells that split `[lo, hi)`. */
  predicate InCell(p: real, lo: real, hi: real, n: int, i: int)
    requires lo < hi && n >= 1
  {
    CellEdge(lo, hi, n, i) <= p < CellEdge(lo, hi, n, i + 1)
  }

  /**
   * `_GetCellIndex` along one axis: the coordinate is normalised against the bounds; a value
   * in [0, 1) is scaled by the cell count and floored, a value at or above 1 gives the last
   * cell and anything else the first.
   */
  function AxisIndex(p: real, lo: real, hi: real, n: int): (i: int)
    requires lo < hi && n >= 1
    ensures 0 <= i <= n - 1
    ensures p < lo ==> i == 0
    ensures p >= hi ==> i == n - 1
    ensures lo <= p < hi ==> InCell(p, lo, hi, n, i)
  {
    var u := (p - lo) / (hi - lo);
    NormalisedRange(p, lo, hi, u);
    if u < 1.0 && u >= 0.0 then
      var i := (u * n as real).Floor;
      FloorCell(p, lo, hi, n, u, i);
      i
    else if u >= 1.0 then n - 1
    else 0
  }

  lemma MulLe(a: real, b: real, c: real)
    requires a <= b && c > 0.0
    ensures a * c <= b * c
  {
  }

  lemma MulLt(a: real, b: real, c: real)
    requires a < b && c > 0.0
    ensures a * c < b * c
  {
  }

  /** Scaling by a positive `d` keeps the sign. */
  lemma ScaledSign(u: real, d: real)
    requires d > 0.0
    ensures u < 0.0 <==> u * d < 0.0
  {
    if u < 0.0 { MulLt(u, 0.0, d); } else { MulLe(0.0, u, d); }
  }

  /** Scaling by a positive `d` keeps the comparison with one. */
  lemma ScaledBelowOne(u: real, d: real)
    requires d > 0.0
    ensures u < 1.0 <==> u * d < d
  {
    if u < 1.0 { MulLt(u, 1.0, d); } else { MulLe(1.0, u, d); }
  }

  /** Facts about the normalised coordinate `u == (p - lo) / (hi - lo)`. */
  lemma NormalisedRange(p: real, lo: real, hi: real, u: real)
    requires lo < hi && u == (p - lo) / (hi - lo)
    ensures u * (hi - lo) == p - lo
    ensures p < lo <==> u < 0.0
    ensures p >= hi <==> u >= 1.0
  {
    assert u * (hi - lo) == p - lo;
    ScaledRange(p, lo, hi, u);
  }

  /** The same facts, for `u` given by `u * (hi - lo) == p - lo`. */
  lemma ScaledRange(p: real, lo: real, hi: real, u: real)
    requires lo < hi && u * (hi - lo) == p - lo
    ensures p < lo <==> u < 0.0
    ensures p >= hi <==> u >= 1.0
  {
    ScaledSign(u, hi - lo);
    ScaledBelowOne(u, hi - lo);
  }

  /** Dividing both sides of `x <= y * m` by a positive `m`. */
  lemma DivLe(x: real, y: real, m: real)
    requires m > 0.0 && x <= y * m
    ensures x / m <= y
  {
    var a := x / m;
    assert a * m == x;
    if a > y { MulLt(y, a, m); }
  }

  /** Dividing both sides of `y * m < x` by a positive `m`. */
  lemma DivGt(x: real, y: real, m: real)
    requires m > 0.0 && y * m < x
    ensures y < x / m
  {
    var b := x / m;
    assert b * m == x;
    if b <= y { MulLe(b, y, m); }
  }

  /** The floor of a real lies at most one below it. */
  lemma FloorBounds(v: real)
    ensures v.Floor as real <= v < (v.Floor + 1) as real
  {
  }

  /** Scaling a fraction of the unit interval by `n` and flooring gives one of `0 .. n - 1`. */
  lemma FloorIndex(u: real, n: int, i: int)
    requires n >= 1 && 0.0 <= u < 1.0 && i == (u * n as real).Floor
    ensures 0 <= i <= n - 1
    ensures i as real <= u * n as real < (i + 1) as real
  {
    FloorBounds(u * n as real);
    MulLe(0.0, u, n as real);
    MulLt(u, 1.0, n as real);
  }

  /** `k <= u * m` gives `k * d / m <= u * d` for positive `m` and `d`. */
  lemma ScaledBelow(k: real, u: real, d: real, m: real)
    requires m > 0.0 && d > 0.0 && k <= u * m
    ensures k * d / m <= u * d
  {
    DivLe(k, u, m);
    MulLe(k / m, u, d);
    ScaleDiv(k, d, m);
  }

  /** `u * m < k` gives `u * d < k * d / m` for positive `m` and `d`. */
  lemma ScaledAbove(k: real, u: real, d: real, m: real)
    requires m > 0.0 && d > 0.0 && u * m < k
    ensures u * d < k * d / m
  {
    DivGt(k, u, m);
    MulLt(u, k / m, d);
    ScaleDiv(k, d, m);
  }

  lemma FloorCell(p: real, lo: real, hi: real, n: int, u: real, i: int)
    requires lo < hi && n >= 1 && 0.0 <= u < 1.0 && u * (hi - lo) == p - lo
    requires i == (u * n as real).Floor
    ensures 0 <= i <= n - 1 && InCell(p, lo, hi, n, i)
  {
    FloorIndex(u, n, i);
    ScaledBelow(i as real, u, hi - lo, n as real);
    ScaledAbove((i + 1) as real, u, hi - lo, n as real);
  }

  lemma ScaleDiv(k: real, d: real, m: real)
    requires m > 0.0
    ensures k * d / m == (k / m) * d
  {
  }

  /** Cell edges are ordered like their indices. */
  lemma EdgeMonotone(lo: real, hi: real, n: int, i: int, j: int)
    requires lo < hi && n >= 1 && i <= j
    ensures CellEdge(lo, hi, n, i) <= CellEdge(lo, hi, n, j)
  {
    BoundaryMonotone(i as real, j as real, hi - lo, n as real);
  }

  lemma BoundaryMonotone(k1: real, k2: real, d: real, m: real)
    requires k1 <= k2 && d > 0.0 && m > 0.0
    ensures k1 * d / m <= k2 * d / m
  {
    assert (k2 / m) * m == k2;
    DivLe(k1, k2 / m, m);
    MulLe(k1 / m, k2 / m, d);
    ScaleDiv(k1, d, m);
    ScaleDiv(k2, d, m);
  }

  /** A larger coordinate never yields a smaller cell index. */
  lemma AxisIndexMonotone(p1: real, p2: real, lo: real, hi: real, n: int)
    requires lo < hi && n >= 1 && p1 <= p2
    ensures AxisIndex(p1, lo, hi, n) <= AxisIndex(p2, lo, hi, n)
  {
    var i1 := AxisIndex(p1, lo, hi, n);
    var i2 := AxisIndex(p2, lo, hi, n);
    if p1 < lo {
      assert i1 == 0;
    } else if p2 >= hi {
      assert i2 == n - 1;
    } else if i1 > i2 {
      assert InCell(p1, lo, hi, n, i1) && InCell(p2, lo, hi, n, i2);
      EdgeMonotone(lo, hi, n, i2 + 1, i1);
      assert false;
    }
  }

  /** Whenever two coordinate intervals overlap, so do the index ranges of their end points. */
  lemma AxisRangesMeet(a1: real, a2: real, b1: real, b2: real, lo: real, hi: real, n: int)
    requires lo < hi && n >= 1 && a1 <= a2 && b1 <= b2 && a1 <= b2 && b1 <= a2
    ensures var ia1, ia2 := AxisIndex(a1, lo, hi, n), AxisIndex(a2, lo, hi, n);
      var ib1, ib2 := AxisIndex(b1, lo, hi, n), AxisIndex(b2, lo, hi, n);
      ia1 <= ia2 && ib1 <= ib2 && ia1 <= ib2 && ib1 <= ia2
  {
    AxisIndexMonotone(a1, a2, lo, hi, n);
    AxisIndexMonotone(b1, b2, lo, hi, n);
    AxisIndexMonotone(a1, b2, lo, hi, n);
    AxisIndexMonotone(b1, a2, lo, hi, n);
  }

  // -----------------------------------------------------------------------------------------
  // Doubly linked lists in a node arena

  type NodeId = nat

  /** A list node: its neighbours in the cell's list and the client it stands for. */
  datatype Node = Node(next: Option<NodeId>, prev: Option<NodeId>, client: Client)

  function HeadOf(list: seq<NodeId>): Option<NodeId>
  {
    if |list| == 0 then None else Some(list[0])
  }

  function NextOf(list: seq<NodeId>, k: int): Option<NodeId>
    requires 0 <= k < |list|
  {
    if k + 1 < |list| then Some(list[k + 1]) else None
  }

  function PrevOf(list: seq<NodeId>, k: int): Option<NodeId>
    requires 0 <= k < |list|
  {
    if k > 0 then Some(list[k - 1]) else None
  }

  predicate Distinct<T(==)>(s: seq<T>)
  {
    forall i, j :: 0 <= i < j < |s| ==> s[i] != s[j]
  }

  /** Following `next` from the head (and `prev` back) in `nodes` visits exactly `list`. */
  ghost predicate ListLinked(nodes: map<NodeId, Node>, list: seq<NodeId>)
  {
    Distinct(list) && (forall k :: 0 <= k < |list| ==> list[k] in nodes) &&
    forall k :: 0 <= k < |list| ==> LinkAt(nodes, list, k)
  }

  /** The node at position `k` of `list` is in `nodes` and links to its neighbours in `list`. */
  ghost predicate LinkAt(nodes: map<NodeId, Node>, list: seq<NodeId>, k: int)
  {
    0 <= k < |list| && list[k] in nodes && nodes[list[k]].next == NextOf(list, k) && nodes[list[k]].prev == PrevOf(list, k)
  }

  /** The clients of the nodes of a list, from head to tail. */
  function ClientsOf(nodes: map<NodeId, Node>, list: seq<NodeId>): (r: seq<Client>)
    requires forall k :: 0 <= k < |list| ==> list[k] in nodes
    ensures |r| == |list| && forall k :: 0 <= k < |list| ==> r[k] == nodes[list[k]].client
  {
    if |list| == 0 then [] else [nodes[list[0]].client] + ClientsOf(nodes, list[1..])
  }

  /** A list stays linked when none of its nodes changes. */
  lemma ListLinkedFrame(n1: map<NodeId, Node>, n2: map<NodeId, Node>, list: seq<NodeId>)
    requires ListLinked(n1, list)
    requires forall k :: 0 <= k < |list| ==> list[k] in n2 && n2[list[k]] == n1[list[k]]
    ensures ListLinked(n2, list)
  {
    forall k | 0 <= k < |list|
      ensures LinkAt(n2, list, k)
    {
      assert LinkAt(n1, list, k);
    }
  }

  /**
   * The arena after putting a fresh node `id` for `c` at the head of `list`: the new node's
   * `next` is the old head and the old head's `prev` becomes the new node.
   */
  function PushedFront(nodes: map<NodeId, Node>, head: Option<NodeId>, id: NodeId, c: Client): map<NodeId, Node>
  {
    var n1 := nodes[id := Node(head, None, c)];
    if head.Some? && head.value in n1 then n1[head.value := n1[head.value].(prev := Some(id))] else n1
  }

  lemma PushFrontLinked(nodes: map<NodeId, Node>, list: seq<NodeId>, id: NodeId, c: Client)
    requires ListLinked(nodes, list) && id !in list
    ensures ListLinked(PushedFront(nodes, HeadOf(list), id, c), [id] + list)
  {
    var n2 := PushedFront(nodes, HeadOf(list), id, c);
    var l := [id] + list;
    forall k | 0 <= k < |l|
      ensures LinkAt(n2, l, k)
    {
      if k > 0 {
        assert LinkAt(nodes, list, k - 1);
      }
      if k > 1 {
        assert l[k] == list[k - 1] && l[k] != list[0];
      }
    }
  }

  /** Removes every occurrence of `id`. */
  function Erase(list: seq<NodeId>, id: NodeId): (r: seq<NodeId>)
    ensures forall i :: i in r <==> i in list && i != id
  {
    if |list| == 0 then []
    else (if list[0] == id then [] else [list[0]]) + Erase(list[1..], id)
  }

  /** In a list without repeats, erasing the node at position `k` cuts that position out. */
  lemma {:induction false} EraseAt(list: seq<NodeId>, k: int)
    requires Distinct(list) && 0 <= k < |list|
    ensures Erase(list, list[k]) == list[..k] + list[k + 1..]
    decreases |list|
  {
    if k == 0 {
      EraseAbsent(list[1..], list[0]);
      assert list[1..] == list[k + 1..];
    } else {
      DistinctTail(list);
      assert list[k] == list[1..][k - 1];
      EraseAt(list[1..], k - 1);
      SliceAround(list, k);
    }
  }

  /** The tail of a list without repeats has none either, and does not hold the head. */
  lemma DistinctTail<T>(s: seq<T>)
    requires Distinct(s) && |s| > 0
    ensures Distinct(s[1..]) && s[0] !in s[1..]
  {
    forall i, j | 0 <= i < j < |s| - 1
      ensures s[1..][i] != s[1..][j]
    {
      assert s[1..][i] == s[i + 1] && s[1..][j] == s[j + 1];
    }
  }

  /** Cutting position `k` out of `s` through its tail. */
  lemma SliceAround<T>(s: seq<T>, k: int)
    requires 0 < k < |s|
    ensures s[1..][..k - 1] == s[1..k] && s[1..][k..] == s[k + 1..] && s[..k] == [s[0]] + s[1..k]
  {
  }

  lemma {:induction false} EraseAbsent(list: seq<NodeId>, id: NodeId)
    requires id !in list
    ensures Erase(list, id) == list
  {
    if |list| > 0 {
      EraseAbsent(list[1..], id);
      assert list == [list[0]] + list[1..];
    }
  }

  /**
   * The arena after the two updates `RemoveClient` makes around `node`: its successor's
   * `prev` takes its `prev`, then its predecessor's `next` takes its `next`.
   */
  function Unlinked(nodes: map<NodeId, Node>, node: Node): map<NodeId, Node>
  {
    BypassPrev(BypassNext(nodes, node), node)
  }

  function BypassNext(nodes: map<NodeId, Node>, node: Node): map<NodeId, Node>
  {
    if node.next.Some? && node.next.value in nodes
    then nodes[node.next.value := nodes[node.next.value].(prev := node.prev)] else nodes
  }

  function BypassPrev(nodes: map<NodeId, Node>, node: Node): map<NodeId, Node>
  {
    if node.prev.Some? && node.prev.value in nodes
    then nodes[node.prev.value := nodes[node.prev.value].(next := node.next)] else nodes
  }

  lemma UnlinkedAt(nodes: map<NodeId, Node>, list: seq<NodeId>, k: int, m: int)
    requires ListLinked(nodes, list) && 0 <= k < |list| && 0 <= m < |list| && m != k
    ensures var n2 := Unlinked(nodes, nodes[list[k]]);
      list[m] in n2 &&
      n2[list[m]] == (if m == k + 1 then nodes[list[m]].(prev := PrevOf(list, k))
                      else if m == k - 1 then nodes[list[m]].(next := NextOf(list, k))
                      else nodes[list[m]])
  {
    assert LinkAt(nodes, list, k);
    assert list[m] != list[k];
    if k + 1 < |list| { assert list[k + 1] != list[m] || m == k + 1; }
    if k > 0 { assert list[k - 1] != list[m] || m == k - 1; }
    if k > 0 && k + 1 < |list| { assert list[k - 1] != list[k + 1]; }
  }

  /** The head after unlinking position `k` is the node's `next` when it had no `prev`. */
  lemma UnlinkHead(nodes: map<NodeId, Node>, list: seq<NodeId>, k: int)
    requires ListLinked(nodes, list) && 0 <= k < |list|
    ensures HeadOf(list[..k] + list[k + 1..]) ==
      if nodes[list[k]].prev.None? then nodes[list[k]].next else HeadOf(list)
  {
    assert LinkAt(nodes, list, k);
    if k == 0 {
      assert list[..k] + list[k + 1..] == list[1..];
    } else {
      assert (list[..k] + list[k + 1..])[0] == list[0];
    }
  }

  /** Unlinking changes only the links of the list's own nodes, and no node's client. */
  lemma UnlinkedKeeps(nodes: map<NodeId, Node>, list: seq<NodeId>, k: int)
    requires ListLinked(nodes, list) && 0 <= k < |list|
    ensures var n2 := Unlinked(nodes, nodes[list[k]]);
      n2.Keys == nodes.Keys &&
      (forall i :: i in nodes ==> n2[i].client == nodes[i].client) &&
      (forall i :: i in nodes && i !in list ==> n2[i] == nodes[i])
  {
    assert LinkAt(nodes, list, k);
  }

  lemma DistinctCut<T>(list: seq<T>, k: int)
    requires Distinct(list) && 0 <= k < |list|
    ensures Distinct(list[..k] + list[k + 1..])
  {
    var l := list[..k] + list[k + 1..];
    forall i, j | 0 <= i < j < |l| ensures l[i] != l[j] {
      var i' := if i < k then i else i + 1;
      var j' := if j < k then j else j + 1;
      assert l[i] == list[i'] && l[j] == list[j'];
    }
  }

  /**
   * Unlinking the node at position `k` as `RemoveClient` does: its successor's `prev` takes
   * its `prev`, its predecessor's `next` takes its `next`, and the node itself is left as is.
   */
  lemma UnlinkLinked(nodes: map<NodeId, Node>, list: seq<NodeId>, k: int)
    requires ListLinked(nodes, list) && 0 <= k < |list|
    ensures ListLinked(Unlinked(nodes, nodes[list[k]]), list[..k] + list[k + 1..])
  {
    var n2, l := Unlinked(nodes, nodes[list[k]]), list[..k] + list[k + 1..];
    DistinctCut(list, k);
    forall m | 0 <= m < |l|
      ensures LinkAt(n2, l, m)
    {
      UnlinkedLink(nodes, list, k, m);
    }
  }

  lemma UnlinkedLink(nodes: map<NodeId, Node>, list: seq<NodeId>, k: int, m: int)
    requires ListLinked(nodes, list) && 0 <= k < |list| && 0 <= m < |list| - 1
    ensures var n2, l := Unlinked(nodes, nodes[list[k]]), list[..k] + list[k + 1..];
      l[m] in n2 && n2[l[m]].next == NextOf(l, m) && n2[l[m]].prev == PrevOf(l, m)
  {
    var l := list[..k] + list[k + 1..];
    var m' := if m < k then m else m + 1;
    assert l[m] == list[m'] && LinkAt(nodes, list, m');
    UnlinkedAt(nodes, list, k, m');
    if m + 1 < |l| {
      assert l[m + 1] == list[if m + 1 < k then m + 1 else m + 2];
    }
    if m > 0 {
      assert l[m - 1] == list[if m - 1 < k then m - 1 else m];
    }
  }

  // -----------------------------------------------------------------------------------------
  // Entities and clients

  /**
   * What the grid needs of an entity: `getPosition` and `getDimensions`. An object lacking
   * either accessor is refused by `newClient`; the two flags record whether they exist.
   */
  class Entity {
    const HasGetPosition: bool
    const HasGetDimensions: bool
    var position: Vec3
    var dimensions: Dimensions

    constructor (hasGetPosition: bool, hasGetDimensions: bool, position: Vec3, dimensions: Dimensions)
      ensures HasGetPosition == hasGetPosition && HasGetDimensions == hasGetDimensions
      ensures this.position == position && this.dimensions == dimensions
    {
      HasGetPosition := hasGetPosition;
      HasGetDimensions := hasGetDimensions;
      this.position := position;
      this.dimensions := dimensions;
    }
  }

  /**
   * `client._cells`: the inclusive index rectangle the client was linked into and its node
   * in each of those cells, `nodes[x - min.x][y - min.y]` for cell `(x, y)`.
   */
  datatype ClientCells = ClientCells(min: CellIndex, max: CellIndex, nodes: seq<seq<NodeId>>)

  /** The grid's record of an entity; `cells == None` stands for the nulled `_cells` fields. */
  class Client {
    const entity: Entity
    var cells: Option<ClientCells>
    var queryId: int

    constructor (entity: Entity)
      ensures this.entity == entity && cells == None && queryId == -1
    {
      this.entity := entity;
      cells := None;
      queryId := -1;
    }
  }

  /** The number of indices from `lo` to `hi` inclusive. */
  function Count(lo: int, hi: int): nat
  {
    if lo <= hi then hi - lo + 1 else 0
  }

  predicate InRect(min: CellIndex, max: CellIndex, x: int, y: int)
  {
    min.x <= x <= max.x && min.y <= y <= max.y
  }

  /** The node table holds one row per column of the rectangle and one node per cell. */
  predicate CellsShaped(cc: ClientCells)
  {
    |cc.nodes| == Count(cc.min.x, cc.max.x) &&
    forall r :: 0 <= r < |cc.nodes| ==> |cc.nodes[r]| == Count(cc.min.y, cc.max.y)
  }

  function NodeAt(cc: ClientCells, x: int, y: int): NodeId
    requires CellsShaped(cc) && InRect(cc.min, cc.max, x, y)
  {
    cc.nodes[x - cc.min.x][y - cc.min.y]
  }

  /** Every node of the list is recorded as lying in cell `c`. */
  ghost predicate Placed(where: map<NodeId, CellIndex>, list: seq<NodeId>, c: CellIndex)
  {
    forall k :: 0 <= k < |list| ==> list[k] in where && where[list[k]] == c
  }

  /** The list of cell `c` is linked and its nodes lie in that cell only. */
  ghost predicate CellArranged(nodes: map<NodeId, Node>, where: map<NodeId, CellIndex>, list: seq<NodeId>, c: CellIndex)
  {
    ListLinked(nodes, list) && Placed(where, list, c)
  }

  /** Every list of the grid is linked and its nodes lie in its own cell only. */
  ghost predicate Arranged(nodes: map<NodeId, Node>, where: map<NodeId, CellIndex>, lists: seq<seq<seq<NodeId>>>)
  {
    forall x, y {:trigger CellArranged(nodes, where, lists[x][y], CellIndex(x, y))} ::
      0 <= x < |lists| && 0 <= y < |lists[x]| ==> CellArranged(nodes, where, lists[x][y], CellIndex(x, y))
  }

  /** Pushing a fresh node on one list leaves every list arranged. */
  lemma ArrangedPush(nodes: map<NodeId, Node>, where: map<NodeId, CellIndex>, lists: seq<seq<seq<NodeId>>>,
                     x: int, y: int, id: NodeId, c: Client)
    requires Arranged(nodes, where, lists) && 0 <= x < |lists| && 0 <= y < |lists[x]| && id !in nodes
    ensures var n2 := PushedFront(nodes, HeadOf(lists[x][y]), id, c);
      Arranged(n2, where[id := CellIndex(x, y)], lists[x := lists[x][y := [id] + lists[x][y]]]) &&
      n2.Keys == nodes.Keys + {id} && n2[id].client == c &&
      (forall i :: i in nodes ==> n2[i].client == nodes[i].client)
  {
    var list := lists[x][y];
    var n2, w2 := PushedFront(nodes, HeadOf(list), id, c), where[id := CellIndex(x, y)];
    var l2 := lists[x := lists[x][y := [id] + list]];
    forall x', y' | 0 <= x' < |l2| && 0 <= y' < |l2[x']|
      ensures CellArranged(n2, w2, l2[x'][y'], CellIndex(x', y'))
    {
      assert CellArranged(nodes, where, lists[x'][y'], CellIndex(x', y'));
      assert CellArranged(nodes, where, list, CellIndex(x, y));
      if x' == x && y' == y {
        PushFrontLinked(nodes, list, id, c);
      } else {
        var other := lists[x'][y'];
        assert l2[x'][y'] == other;
        forall k | 0 <= k < |other| ensures other[k] in n2 && n2[other[k]] == nodes[other[k]] {
          assert other[k] != id;
          assert |list| > 0 ==> where[list[0]] == CellIndex(x, y);
        }
        ListLinkedFrame(nodes, n2, other);
      }
    }
  }

  /**
   * Unlinking node `id` from cell `(x, y)` leaves every list arranged, with `id` erased from
   * its own; the head moves to the node's `next` exactly when the node had no `prev`; no node
   * appears or disappears and none changes client.
   */
  lemma ArrangedUnlink(nodes: map<NodeId, Node>, where: map<NodeId, CellIndex>, lists: seq<seq<seq<NodeId>>>,
                       x: int, y: int, id: NodeId)
    requires Arranged(nodes, where, lists) && 0 <= x < |lists| && 0 <= y < |lists[x]|
    requires id in lists[x][y] && id in nodes
    ensures var n2, list := Unlinked(nodes, nodes[id]), lists[x][y];
      Arranged(n2, where, lists[x := lists[x][y := Erase(list, id)]]) &&
      HeadOf(Erase(list, id)) == (if nodes[id].prev.None? then nodes[id].next else HeadOf(list)) &&
      n2.Keys == nodes.Keys && (forall i :: i in nodes ==> n2[i].client == nodes[i].client)
  {
    var list := lists[x][y];
    assert CellArranged(nodes, where, list, CellIndex(x, y));
    var k :| 0 <= k < |list| && list[k] == id;
    EraseAt(list, k);
    UnlinkHead(nodes, list, k);
    UnlinkArranged(nodes, where, lists, x, y, k);
    UnlinkedKeeps(nodes, list, k);
  }

  lemma UnlinkArranged(nodes: map<NodeId, Node>, where: map<NodeId, CellIndex>, lists: seq<seq<seq<NodeId>>>,
                       x: int, y: int, k: int)
    requires Arranged(nodes, where, lists) && 0 <= x < |lists| && 0 <= y < |lists[x]| && 0 <= k < |lists[x][y]|
    requires lists[x][y][k] in nodes
    ensures var list := lists[x][y];
      Arranged(Unlinked(nodes, nodes[list[k]]), where, lists[x := lists[x][y := list[..k] + list[k + 1..]]])
  {
    var list := lists[x][y];
    var n2 := Unlinked(nodes, nodes[list[k]]);
    var l2 := lists[x := lists[x][y := list[..k] + list[k + 1..]]];
    assert CellArranged(nodes, where, list, CellIndex(x, y));
    UnlinkedKeeps(nodes, list, k);
    forall x', y' | 0 <= x' < |l2| && 0 <= y' < |l2[x']|
      ensures CellArranged(n2, where, l2[x'][y'], CellIndex(x', y'))
    {
      assert CellArranged(nodes, where, lists[x'][y'], CellIndex(x', y'));
      if x' == x && y' == y {
        UnlinkLinked(nodes, list, k);
        var l := l2[x][y];
        forall j | 0 <= j < |l| ensures l[j] in where && where[l[j]] == CellIndex(x, y) {
          assert l[j] == list[if j < k then j else j + 1];
        }
      } else {
        var other := lists[x'][y'];
        assert l2[x'][y'] == other;
        forall j | 0 <= j < |other| ensures other[j] in n2 && n2[other[j]] == nodes[other[j]] {
          assert other[j] !in list;
        }
        ListLinkedFrame(nodes, n2, other);
      }
    }
  }

  // -----------------------------------------------------------------------------------------
  // Which client owns which node

  predicate InDims(dims: Dims, x: int, y: int)
  {
    0 <= x < dims.x && 0 <= y < dims.y
  }

  /** `lists` holds one list per cell of a `dims.x` by `dims.y` grid. */
  ghost predicate ShapedBy(lists: seq<seq<seq<NodeId>>>, dims: Dims)
  {
    |lists| == dims.x && forall x :: 0 <= x < |lists| ==> |lists[x]| == dims.y
  }

  /** A client's rectangle lies in the grid and its node table fits the rectangle. */
  predicate RegWf(cc: ClientCells, dims: Dims)
  {
    CellsShaped(cc) && InDims(dims, cc.min.x, cc.min.y) && InDims(dims, cc.max.x, cc.max.y)
  }

  /** Client `c`, registered with `cc`, has its own node in every cell of its rectangle. */
  ghost predicate ClientIndexed(nodes: map<NodeId, Node>, lists: seq<seq<seq<NodeId>>>, cc: ClientCells, c: Client)
    requires CellsShaped(cc)
  {
    forall x, y :: InRect(cc.min, cc.max, x, y) ==>
      0 <= x < |lists| && 0 <= y < |lists[x]| &&
      NodeAt(cc, x, y) in lists[x][y] && NodeAt(cc, x, y) in nodes && nodes[NodeAt(cc, x, y)].client == c
  }

  /** Every node listed in cell `(x, y)` is that cell's node of a registered client. */
  ghost predicate CellIndexed(nodes: map<NodeId, Node>, regs: map<Client, ClientCells>, list: seq<NodeId>, x: int, y: int)
  {
    (forall k :: 0 <= k < |list| ==> list[k] in nodes) &&
    forall k :: 0 <= k < |list| ==> IndexedAt(nodes, regs, list, x, y, k)
  }

  /** The node at position `k` of the list of cell `(x, y)` is that cell's node of a registered client. */
  ghost predicate IndexedAt(nodes: map<NodeId, Node>, regs: map<Client, ClientCells>, list: seq<NodeId>, x: int, y: int, k: int)
  {
    0 <= k < |list| && list[k] in nodes && nodes[list[k]].client in regs &&
    var cc := regs[nodes[list[k]].client];
    CellsShaped(cc) && InRect(cc.min, cc.max, x, y) && NodeAt(cc, x, y) == list[k]
  }

  /**
   * The registry `regs` and the lists agree: every registered client has its own node in
   * each cell of its rectangle, and every listed node is such a node. So a client appears
   * exactly once in each cell of its rectangle and in no other cell.
   */
  ghost predicate IndexedBy(nodes: map<NodeId, Node>, lists: seq<seq<seq<NodeId>>>, regs: map<Client, ClientCells>, dims: Dims)
  {
    ShapedBy(lists, dims) &&
    (forall c: Client {:trigger regs[c]} :: c in regs ==> RegWf(regs[c], dims) && ClientIndexed(nodes, lists, regs[c], c)) &&
    (forall x, y {:trigger CellIndexed(nodes, regs, lists[x][y], x, y)} ::
       0 <= x < |lists| && 0 <= y < |lists[x]| ==> CellIndexed(nodes, regs, lists[x][y], x, y))
  }

  /** The lists after `_Insert` has put `rows[r][s]` at the head of cell `(min.x + r, min.y + s)`. */
  ghost function WithHeads(lists: seq<seq<seq<NodeId>>>, min: CellIndex, rows: seq<seq<NodeId>>): seq<seq<seq<NodeId>>>
  {
    seq(|lists|, x requires 0 <= x < |lists| =>
      seq(|lists[x]|, y requires 0 <= y < |lists[x]| =>
        if 0 <= x - min.x < |rows| && 0 <= y - min.y < |rows[x - min.x]|
        then [rows[x - min.x][y - min.y]] + lists[x][y] else lists[x][y]))
  }

  /** The lists after `RemoveClient` has taken out the nodes of the client registered with `cc`. */
  ghost function Erased(lists: seq<seq<seq<NodeId>>>, cc: ClientCells): seq<seq<seq<NodeId>>>
    requires CellsShaped(cc)
  {
    seq(|lists|, x requires 0 <= x < |lists| =>
      seq(|lists[x]|, y requires 0 <= y < |lists[x]| =>
        if InRect(cc.min, cc.max, x, y) then Erase(lists[x][y], NodeAt(cc, x, y)) else lists[x][y]))
  }

  /** `s` without any occurrence of `c`, in order. */
  function Without(s: seq<Client>, c: Client): (r: seq<Client>)
    ensures forall d: Client :: d in r ==> d in s && d != c
    ensures forall d: Client :: d in s && d != c ==> d in r
    ensures |r| <= |s|
  {
    if |s| == 0 then []
    else (if s[0] == c then [] else [s[0]]) + Without(s[1..], c)
  }

  /**
   * Inserting a client whose node `NodeAt(cc, x, y)` heads each cell of its rectangle keeps
   * the index, provided no listed node changes client.
   */
  lemma InsertIndexed(nodes0: map<NodeId, Node>, lists0: seq<seq<seq<NodeId>>>, regs: map<Client, ClientCells>,
                      nodes1: map<NodeId, Node>, c: Client, cc: ClientCells, dims: Dims)
    requires IndexedBy(nodes0, lists0, regs, dims) && c !in regs && RegWf(cc, dims)
    requires forall i :: i in nodes0 ==> i in nodes1 && nodes1[i].client == nodes0[i].client
    requires forall x, y :: InRect(cc.min, cc.max, x, y) ==> NodeAt(cc, x, y) in nodes1 && nodes1[NodeAt(cc, x, y)].client == c
    ensures IndexedBy(nodes1, WithHeads(lists0, cc.min, cc.nodes), regs[c := cc], dims)
  {
    var lists1, regs1 := WithHeads(lists0, cc.min, cc.nodes), regs[c := cc];
    forall d | d in regs1 ensures RegWf(regs1[d], dims) && ClientIndexed(nodes1, lists1, regs1[d], d) {
      InsertKeepsClient(nodes0, lists0, regs, nodes1, c, cc, dims, d);
    }
    forall x, y | 0 <= x < |lists1| && 0 <= y < |lists1[x]|
      ensures CellIndexed(nodes1, regs1, lists1[x][y], x, y)
    {
      InsertKeepsCell(nodes0, lists0, regs, nodes1, c, cc, dims, x, y);
    }
  }

  lemma InsertKeepsClient(nodes0: map<NodeId, Node>, lists0: seq<seq<seq<NodeId>>>, regs: map<Client, ClientCells>,
                          nodes1: map<NodeId, Node>, c: Client, cc: ClientCells, dims: Dims, d: Client)
    requires IndexedBy(nodes0, lists0, regs, dims) && c !in regs && RegWf(cc, dims)
    requires forall i :: i in nodes0 ==> i in nodes1 && nodes1[i].client == nodes0[i].client
    requires forall x, y :: InRect(cc.min, cc.max, x, y) ==> NodeAt(cc, x, y) in nodes1 && nodes1[NodeAt(cc, x, y)].client == c
    requires d in regs[c := cc]
    ensures var regs1 := regs[c := cc];
      RegWf(regs1[d], dims) && ClientIndexed(nodes1, WithHeads(lists0, cc.min, cc.nodes), regs1[d], d)
  {
    var lists1, dc := WithHeads(lists0, cc.min, cc.nodes), regs[c := cc][d];
    if d != c {
      assert RegWf(regs[d], dims) && ClientIndexed(nodes0, lists0, regs[d], d);
    }
    forall x, y | InRect(dc.min, dc.max, x, y)
      ensures 0 <= x < |lists1| && 0 <= y < |lists1[x]| &&
        NodeAt(dc, x, y) in lists1[x][y] && NodeAt(dc, x, y) in nodes1 && nodes1[NodeAt(dc, x, y)].client == d
    {
      if d == c {
        assert lists1[x][y][0] == NodeAt(cc, x, y);
      } else {
        assert NodeAt(dc, x, y) in lists0[x][y];
      }
    }
  }

  lemma InsertKeepsCell(nodes0: map<NodeId, Node>, lists0: seq<seq<seq<NodeId>>>, regs: map<Client, ClientCells>,
                        nodes1: map<NodeId, Node>, c: Client, cc: ClientCells, dims: Dims, x: int, y: int)
    requires IndexedBy(nodes0, lists0, regs, dims) && c !in regs && RegWf(cc, dims)
    requires forall i :: i in nodes0 ==> i in nodes1 && nodes1[i].client == nodes0[i].client
    requires forall x, y :: InRect(cc.min, cc.max, x, y) ==> NodeAt(cc, x, y) in nodes1 && nodes1[NodeAt(cc, x, y)].client == c
    requires 0 <= x < |lists0| && 0 <= y < |lists0[x]|
    ensures CellIndexed(nodes1, regs[c := cc], WithHeads(lists0, cc.min, cc.nodes)[x][y], x, y)
  {
    var l0, l1, regs1 := lists0[x][y], WithHeads(lists0, cc.min, cc.nodes)[x][y], regs[c := cc];
    var hit := InRect(cc.min, cc.max, x, y);
    assert l1 == if hit then [NodeAt(cc, x, y)] + l0 else l0;
    assert CellIndexed(nodes0, regs, l0, x, y);
    forall k | 0 <= k < |l1|
      ensures l1[k] in nodes1 && IndexedAt(nodes1, regs1, l1, x, y, k)
    {
      if hit && k == 0 {
        assert l1[0] == NodeAt(cc, x, y);
      } else {
        var k0 := if hit then k - 1 else k;
        assert l1[k] == l0[k0] && IndexedAt(nodes0, regs, l0, x, y, k0);
      }
    }
  }

  /**
   * Removing a registered client's node from each cell of its rectangle keeps the index for
   * the remaining clients, provided no node changes client.
   */
  lemma RemoveIndexed(nodes0: map<NodeId, Node>, lists0: seq<seq<seq<NodeId>>>, regs: map<Client, ClientCells>,
                      nodes1: map<NodeId, Node>, c: Client, dims: Dims)
    requires IndexedBy(nodes0, lists0, regs, dims) && c in regs
    requires forall i :: i in nodes0 ==> i in nodes1 && nodes1[i].client == nodes0[i].client
    ensures RegWf(regs[c], dims)
    ensures IndexedBy(nodes1, Erased(lists0, regs[c]), regs - {c}, dims)
  {
    var cc := regs[c];
    assert RegWf(cc, dims);
    var lists1, regs1 := Erased(lists0, cc), regs - {c};
    forall d | d in regs1 ensures RegWf(regs1[d], dims) && ClientIndexed(nodes1, lists1, regs1[d], d) {
      var dc := regs1[d];
      assert RegWf(regs[d], dims) && ClientIndexed(nodes0, lists0, regs[d], d);
      forall x, y | InRect(dc.min, dc.max, x, y)
        ensures 0 <= x < |lists1| && 0 <= y < |lists1[x]| &&
          NodeAt(dc, x, y) in lists1[x][y] && NodeAt(dc, x, y) in nodes1 && nodes1[NodeAt(dc, x, y)].client == d
      {
        assert NodeAt(dc, x, y) in lists0[x][y];
        if InRect(cc.min, cc.max, x, y) {
          assert ClientIndexed(nodes0, lists0, cc, c);
          assert NodeAt(dc, x, y) != NodeAt(cc, x, y);
        }
      }
    }
    forall x, y | 0 <= x < |lists1| && 0 <= y < |lists1[x]|
      ensures CellIndexed(nodes1, regs1, lists1[x][y], x, y)
    {
      var l0, l1 := lists0[x][y], lists1[x][y];
      assert CellIndexed(nodes0, regs, l0, x, y);
      forall k | 0 <= k < |l1|
        ensures l1[k] in nodes1 && IndexedAt(nodes1, regs1, l1, x, y, k)
      {
        assert l1[k] in l0;
        var k0 :| 0 <= k0 < |l0| && l0[k0] == l1[k];
        assert IndexedAt(nodes0, regs, l0, x, y, k0);
        assert InRect(cc.min, cc.max, x, y) ==> l1[k] != NodeAt(cc, x, y);
      }
    }
  }

  /** Column `col` after `row[s]` has been put at the head of its cell `ylo + s`. */
  ghost function Headed(col: seq<seq<NodeId>>, ylo: int, row: seq<NodeId>): seq<seq<NodeId>>
  {
    seq(|col|, y requires 0 <= y < |col| =>
      if 0 <= y - ylo < |row| then [row[y - ylo]] + col[y] else col[y])
  }

  /** No heads put, no list changed. */
  lemma HeadedNone(col: seq<seq<NodeId>>, ylo: int)
    ensures Headed(col, ylo, []) == col
  {
  }

  /** Heading the next cell of the column with `id` extends the row by `id`. */
  lemma HeadedPush(col: seq<seq<NodeId>>, ylo: int, row: seq<NodeId>, y: int, id: NodeId)
    requires y - ylo == |row| && 0 <= y < |col|
    ensures var h := Headed(col, ylo, row); h[y := [id] + h[y]] == Headed(col, ylo, row + [id])
  {
    var h := Headed(col, ylo, row);
    var h1, h2 := h[y := [id] + h[y]], Headed(col, ylo, row + [id]);
    forall b | 0 <= b < |col| ensures h1[b] == h2[b] {
      if 0 <= b - ylo < |row| {
        assert (row + [id])[b - ylo] == row[b - ylo];
      }
    }
  }

  /** Every node of `table` is in `nodes` and belongs to `client`. */
  ghost predicate Owned(nodes: map<NodeId, Node>, table: seq<seq<NodeId>>, client: Client)
  {
    forall r, s :: 0 <= r < |table| && 0 <= s < |table[r]| ==>
      table[r][s] in nodes && nodes[table[r][s]].client == client
  }

  /** A column of fresh nodes for `client` extends the table of its nodes. */
  lemma OwnedAppend(n0: map<NodeId, Node>, n1: map<NodeId, Node>, table: seq<seq<NodeId>>, row: seq<NodeId>, client: Client)
    requires Owned(n0, table, client)
    requires forall i :: i in n0 ==> i in n1 && n1[i].client == n0[i].client
    requires forall s :: 0 <= s < |row| ==> row[s] in n1 && n1[row[s]].client == client
    ensures Owned(n1, table + [row], client)
  {
    var t := table + [row];
    forall r, s | 0 <= r < |t| && 0 <= s < |t[r]| ensures t[r][s] in n1 && n1[t[r][s]].client == client {
      if r < |table| {
        assert t[r] == table[r];
      }
    }
  }

  /** No rows put, no list changed. */
  lemma WithHeadsNone(lists: seq<seq<seq<NodeId>>>, min: CellIndex)
    ensures WithHeads(lists, min, []) == lists
  {
    var w := WithHeads(lists, min, []);
    forall x | 0 <= x < |lists| ensures w[x] == lists[x] {
    }
  }

  /** Heading the cells of the next column with `row` extends the table by `row`. */
  lemma WithHeadsColumn(lists: seq<seq<seq<NodeId>>>, min: CellIndex, rows: seq<seq<NodeId>>, x: int, row: seq<NodeId>)
    requires x - min.x == |rows| && 0 <= x < |lists|
    ensures var w := WithHeads(lists, min, rows);
      w[x := Headed(w[x], min.y, row)] == WithHeads(lists, min, rows + [row])
  {
    var w := WithHeads(lists, min, rows);
    var w1, w2 := w[x := Headed(w[x], min.y, row)], WithHeads(lists, min, rows + [row]);
    forall a | 0 <= a < |lists| ensures w1[a] == w2[a] {
      forall b | 0 <= b < |lists[a]| ensures w1[a][b] == w2[a][b] {
        if 0 <= a - min.x < |rows| {
          assert (rows + [row])[a - min.x] == rows[a - min.x];
        }
      }
    }
  }

  /** Column `col`, number `x`, after the nodes of the client registered with `cc` have been taken out of its cells below `yEnd`. */
  ghost function Unheaded(col: seq<seq<NodeId>>, cc: ClientCells, x: int, yEnd: int): seq<seq<NodeId>>
    requires CellsShaped(cc)
  {
    seq(|col|, y requires 0 <= y < |col| =>
      if InRect(cc.min, cc.max, x, y) && y < yEnd then Erase(col[y], NodeAt(cc, x, y)) else col[y])
  }

  /** Nothing is taken out before the first cell of the column. */
  lemma UnheadedNone(col: seq<seq<NodeId>>, cc: ClientCells, x: int)
    requires CellsShaped(cc)
    ensures Unheaded(col, cc, x, cc.min.y) == col
  {
  }

  /** Past the last row of the rectangle, or in an empty rectangle, the whole column is done. */
  lemma UnheadedEnd(col: seq<seq<NodeId>>, cc: ClientCells, x: int, y: int)
    requires CellsShaped(cc) && (y == cc.max.y + 1 || (y == cc.min.y && cc.min.y > cc.max.y))
    ensures Unheaded(col, cc, x, y) == Unheaded(col, cc, x, cc.max.y + 1)
  {
  }

  /** Taking the node out of cell `y` moves the column's frontier one cell on. */
  lemma UnheadedStep(col: seq<seq<NodeId>>, cc: ClientCells, x: int, y: int)
    requires CellsShaped(cc) && InRect(cc.min, cc.max, x, y) && 0 <= y < |col|
    ensures var u := Unheaded(col, cc, x, y);
      u[y] == col[y] && u[y := Erase(u[y], NodeAt(cc, x, y))] == Unheaded(col, cc, x, y + 1)
  {
    var u := Unheaded(col, cc, x, y);
    var u1, u2 := u[y := Erase(u[y], NodeAt(cc, x, y))], Unheaded(col, cc, x, y + 1);
    forall b | 0 <= b < |col| ensures u1[b] == u2[b] {
    }
  }

  /** The lists while `RemoveClient` runs: the columns of the rectangle before `x` are done. */
  ghost function ErasedBefore(lists: seq<seq<seq<NodeId>>>, cc: ClientCells, x: int): seq<seq<seq<NodeId>>>
    requires CellsShaped(cc)
  {
    seq(|lists|, a requires 0 <= a < |lists| =>
      if a < x then Unheaded(lists[a], cc, a, cc.max.y + 1) else lists[a])
  }

  /** Finishing column `x` moves the frontier one column on. */
  lemma ErasedBeforeStep(lists: seq<seq<seq<NodeId>>>, cc: ClientCells, x: int)
    requires CellsShaped(cc) && 0 <= x < |lists|
    ensures var e := ErasedBefore(lists, cc, x);
      e[x] == lists[x] && e[x := Unheaded(e[x], cc, x, cc.max.y + 1)] == ErasedBefore(lists, cc, x + 1)
  {
    var e := ErasedBefore(lists, cc, x);
    var e1, e2 := e[x := Unheaded(e[x], cc, x, cc.max.y + 1)], ErasedBefore(lists, cc, x + 1);
    forall a | 0 <= a < |lists| ensures e1[a] == e2[a] {
    }
  }

  /** Nothing is erased before the first column, and everything after the last one. */
  lemma ErasedBeforeEnds(lists: seq<seq<seq<NodeId>>>, cc: ClientCells, x: int)
    requires CellsShaped(cc)
    ensures x <= cc.min.x ==> ErasedBefore(lists, cc, x) == lists
    ensures x > cc.max.x ==> ErasedBefore(lists, cc, x) == Erased(lists, cc)
  {
    var e0, e1 := ErasedBefore(lists, cc, x), Erased(lists, cc);
    if x <= cc.min.x {
      forall a | 0 <= a < |lists| ensures e0[a] == lists[a] {
        if a < x {
          var u := Unheaded(lists[a], cc, a, cc.max.y + 1);
          forall b | 0 <= b < |lists[a]| ensures u[b] == lists[a][b] {
          }
        }
      }
    }
    if x > cc.max.x {
      forall a | 0 <= a < |lists| ensures e0[a] == e1[a] {
        forall b | 0 <= b < |lists[a]| ensures e0[a][b] == e1[a][b] {
        }
      }
    }
  }

  /** A list has the same clients in two arenas that agree on its nodes' clients. */
  lemma ClientsOfAgree(n0: map<NodeId, Node>, n1: map<NodeId, Node>, list: seq<NodeId>)
    requires forall k :: 0 <= k < |list| ==> list[k] in n0
    requires forall i :: i in n0 ==> i in n1 && n1[i].client == n0[i].client
    ensures ClientsOf(n1, list) == ClientsOf(n0, list)
  {
  }

  /**
   * Erasing the one node of client `c` from a list removes `c` from its clients: the node
   * `id` is exactly the node of the list whose client is `c`.
   */
  lemma {:induction false} ClientsOfErase(nodes: map<NodeId, Node>, list: seq<NodeId>, id: NodeId, c: Client)
    requires forall i :: i in list ==> i in nodes
    requires forall k :: 0 <= k < |list| ==> (nodes[list[k]].client == c <==> list[k] == id)
    ensures ClientsOf(nodes, Erase(list, id)) == Without(ClientsOf(nodes, list), c)
  {
    if |list| > 0 {
      ClientsOfErase(nodes, list[1..], id, c);
      assert ClientsOf(nodes, list)[1..] == ClientsOf(nodes, list[1..]);
      var rest := Erase(list[1..], id);
      if list[0] != id {
        assert Erase(list, id) == [list[0]] + rest;
        assert ClientsOf(nodes, [list[0]] + rest) == [nodes[list[0]].client] + ClientsOf(nodes, rest);
      } else {
        assert Erase(list, id) == rest;
      }
    }
  }

  /**
   * After `_Insert`, a cell of the client's rectangle lists the client first and then the
   * clients it listed before; any other cell lists the same clients as before.
   */
  lemma HeadsMembers(n0: map<NodeId, Node>, n1: map<NodeId, Node>, lists: seq<seq<seq<NodeId>>>,
                     cc: ClientCells, c: Client, x: int, y: int)
    requires CellsShaped(cc) && 0 <= x < |lists| && 0 <= y < |lists[x]|
    requires forall k :: 0 <= k < |lists[x][y]| ==> lists[x][y][k] in n0
    requires forall i :: i in n0 ==> i in n1 && n1[i].client == n0[i].client
    requires InRect(cc.min, cc.max, x, y) ==> NodeAt(cc, x, y) in n1 && n1[NodeAt(cc, x, y)].client == c
    ensures ClientsOf(n1, WithHeads(lists, cc.min, cc.nodes)[x][y]) ==
      (if InRect(cc.min, cc.max, x, y) then [c] else []) + ClientsOf(n0, lists[x][y])
  {
    var l, w := lists[x][y], WithHeads(lists, cc.min, cc.nodes)[x][y];
    ClientsOfAgree(n0, n1, l);
    if InRect(cc.min, cc.max, x, y) {
      var id := NodeAt(cc, x, y);
      assert w == [id] + l;
      ClientsOfCons(n1, id, l);
    } else {
      assert w == l;
    }
  }

  lemma ClientsOfCons(nodes: map<NodeId, Node>, id: NodeId, list: seq<NodeId>)
    requires id in nodes && forall k :: 0 <= k < |list| ==> list[k] in nodes
    ensures ClientsOf(nodes, [id] + list) == [nodes[id].client] + ClientsOf(nodes, list)
  {
    assert ([id] + list)[1..] == list;
  }

  /**
   * After `RemoveClient` takes out the nodes of client `c`, each cell lists the clients it
   * listed before, in the same order, except `c`.
   */
  lemma ErasedMembers(n0: map<NodeId, Node>, n1: map<NodeId, Node>, lists: seq<seq<seq<NodeId>>>,
                      regs: map<Client, ClientCells>, c: Client, dims: Dims, x: int, y: int)
    requires IndexedBy(n0, lists, regs, dims) && c in regs && 0 <= x < |lists| && 0 <= y < |lists[x]|
    requires forall i :: i in n0 ==> i in n1 && n1[i].client == n0[i].client
    ensures CellsShaped(regs[c]) && forall k :: 0 <= k < |lists[x][y]| ==> lists[x][y][k] in n0
    ensures forall i :: i in Erased(lists, regs[c])[x][y] ==> i in n1
    ensures ClientsOf(n1, Erased(lists, regs[c])[x][y]) == Without(ClientsOf(n0, lists[x][y]), c)
  {
    var l, cc := lists[x][y], regs[c];
    assert RegWf(cc, dims) && ClientIndexed(n0, lists, cc, c);
    assert CellIndexed(n0, regs, l, x, y);
    forall k | 0 <= k < |l|
      ensures l[k] in n0 && (n0[l[k]].client == c <==> InRect(cc.min, cc.max, x, y) && l[k] == NodeAt(cc, x, y))
    {
      assert IndexedAt(n0, regs, l, x, y, k);
    }
    assert forall i :: i in l ==> i in n0;
    if InRect(cc.min, cc.max, x, y) {
      var id := NodeAt(cc, x, y);
      assert Erased(lists, cc)[x][y] == Erase(l, id);
      ClientsOfAgree(n0, n1, Erase(l, id));
      ClientsOfErase(n0, l, id, c);
    } else {
      assert Erased(lists, cc)[x][y] == l;
      ClientsOfAgree(n0, n1, l);
      WithoutAbsent(ClientsOf(n0, l), c);
    }
  }

  /** A client absent from a list is not removed from anything. */
  lemma {:induction false} WithoutAbsent(s: seq<Client>, c: Client)
    requires c !in s
    ensures Without(s, c) == s
  {
    if |s| > 0 {
      WithoutAbsent(s[1..], c);
      assert s == [s[0]] + s[1..];
    }
  }

  /**
   * The first `n` clients of `s`, with every repeat of an earlier one dropped, in order of
   * first appearance.
   */
  function DedupUpTo(s: seq<Client>, n: nat): seq<Client>
    requires n <= |s|
  {
    if n == 0 then []
    else
      var d := DedupUpTo(s, n - 1);
      if s[n - 1] in d then d else d + [s[n - 1]]
  }

  /** `s` with every repeat of an earlier element dropped, in order of first appearance. */
  function Dedup(s: seq<Client>): seq<Client>
  {
    DedupUpTo(s, |s|)
  }

  /** Entry `i + 1` of `p` extends entry `i` by `s[i]` exactly when that client is new. */
  ghost predicate PrefixStep(p: seq<seq<Client>>, s: seq<Client>, i: int)
  {
    0 <= i < |s| && |p| == |s| + 1 && p[i + 1] == if s[i] in p[i] then p[i] else p[i] + [s[i]]
  }

  /** `p` lists the deduplicated prefixes of `s`, built one client at a time. */
  ghost predicate Prefixes(p: seq<seq<Client>>, s: seq<Client>)
  {
    |p| == |s| + 1 && forall i :: 0 <= i < |s| ==> PrefixStep(p, s, i)
  }

  /** The table of deduplicated prefixes of `s`, with its entries at `n` and at the end. */
  lemma DedupPrefixes(s: seq<Client>, n: nat) returns (p: seq<seq<Client>>)
    requires n <= |s|
    ensures Prefixes(p, s) && p[n] == DedupUpTo(s, n) && p[|s|] == Dedup(s)
  {
    p := seq(|s| + 1, i requires 0 <= i <= |s| => DedupUpTo(s, i));
    forall i | 0 <= i < |s|
      ensures PrefixStep(p, s, i)
    {
      assert p[i + 1] == DedupUpTo(s, i + 1) && p[i] == DedupUpTo(s, i);
    }
  }

  /** What follows the first `n` clients does not matter to them. */
  lemma {:induction false} DedupUpToPrefix(s: seq<Client>, t: seq<Client>, n: nat)
    requires n <= |s|
    ensures DedupUpTo(s + t, n) == DedupUpTo(s, n)
  {
    if n > 0 {
      DedupUpToPrefix(s, t, n - 1);
    }
  }

  /** `DedupUpTo(s, n)` holds the first `n` clients of `s`, each once. */
  lemma {:induction false} DedupUpToSpec(s: seq<Client>, n: nat)
    requires n <= |s|
    ensures forall c: Client :: c in DedupUpTo(s, n) <==> c in s[..n]
    ensures Distinct(DedupUpTo(s, n))
  {
    if n > 0 {
      DedupUpToSpec(s, n - 1);
      assert s[..n] == s[..n - 1] + [s[n - 1]];
    }
  }

  /** `Dedup(s)` holds the clients of `s`, each once. */
  lemma DedupSpec(s: seq<Client>)
    ensures forall c: Client :: c in Dedup(s) <==> c in s
    ensures Distinct(Dedup(s))
  {
    DedupUpToSpec(s, |s|);
    assert s[..|s|] == s;
  }

  /** Two cell rectangles share a cell. */
  predicate RectsMeet(a1: CellIndex, a2: CellIndex, b1: CellIndex, b2: CellIndex)
  {
    a1.x <= a2.x && b1.x <= b2.x && a1.y <= a2.y && b1.y <= b2.y &&
    a1.x <= b2.x && b1.x <= a2.x && a1.y <= b2.y && b1.y <= a2.y
  }

  /** The clients of column `col` from row `ylo` up to, not including, row `yEnd`, row by row. */
  function ColumnScan(col: seq<seq<Client>>, ylo: int, yEnd: int): seq<Client>
    requires 0 <= ylo && yEnd <= |col|
    decreases yEnd - ylo
  {
    if yEnd <= ylo then [] else ColumnScan(col, ylo, yEnd - 1) + col[yEnd - 1]
  }

  /** Scanning one more cell of a column appends that cell's clients. */
  lemma ColumnScanStep(col: seq<seq<Client>>, ylo: int, y: int, seen: seq<Client>)
    requires 0 <= ylo <= y < |col|
    ensures seen + ColumnScan(col, ylo, y + 1) == (seen + ColumnScan(col, ylo, y)) + col[y]
  {
  }

  /** Entry `i + 1` of `r` extends entry `i` by the clients of rows `ylo` to `yEnd` of column `xlo + i`. */
  ghost predicate RectStep(r: seq<seq<Client>>, view: seq<seq<seq<Client>>>, xlo: int, ylo: int, yEnd: int, i: int)
  {
    0 <= i && i + 1 < |r| && 0 <= xlo + i < |view| && 0 <= ylo && yEnd <= |view[xlo + i]| &&
    r[i + 1] == r[i] + ColumnScan(view[xlo + i], ylo, yEnd)
  }

  /** `view` has `h` rows in every column. */
  predicate Rows(view: seq<seq<seq<Client>>>, h: int)
  {
    forall x :: 0 <= x < |view| ==> |view[x]| == h
  }

  /** The clients of the cells in columns `xlo` to `xEnd` and rows `ylo` to `yEnd` (ends excluded), column by column. */
  function Scan(view: seq<seq<seq<Client>>>, xlo: int, xEnd: int, ylo: int, yEnd: int): seq<Client>
    requires 0 <= xlo && xEnd <= |view| && 0 <= ylo && |view| > 0 && Rows(view, |view[0]|) && yEnd <= |view[0]|
    decreases xEnd - xlo
  {
    if xEnd <= xlo then [] else Scan(view, xlo, xEnd - 1, ylo, yEnd) + ColumnScan(view[xEnd - 1], ylo, yEnd)
  }

  /** Scanning one more column appends that column's scan. */
  lemma ScanStep(view: seq<seq<seq<Client>>>, xlo: int, x: int, ylo: int, yEnd: int)
    requires 0 <= xlo <= x < |view| && 0 <= ylo && Rows(view, |view[0]|) && yEnd <= |view[0]|
    ensures Scan(view, xlo, x + 1, ylo, yEnd) == Scan(view, xlo, x, ylo, yEnd) + ColumnScan(view[x], ylo, yEnd)
  {
  }

  /** A client of a scanned cell of the column is in the column's scan. */
  lemma {:induction false} ColumnScanHas(col: seq<seq<Client>>, ylo: int, yEnd: int, y: int, c: Client)
    requires 0 <= ylo <= y < yEnd <= |col| && c in col[y]
    ensures c in ColumnScan(col, ylo, yEnd)
    decreases yEnd - ylo
  {
    if y < yEnd - 1 {
      ColumnScanHas(col, ylo, yEnd - 1, y, c);
    }
  }

  /** A client in a column's scan is a client of one of the scanned cells. */
  lemma {:induction false} ColumnScanWitness(col: seq<seq<Client>>, ylo: int, yEnd: int, c: Client) returns (y: int)
    requires 0 <= ylo && yEnd <= |col| && c in ColumnScan(col, ylo, yEnd)
    ensures ylo <= y < yEnd && c in col[y]
    decreases yEnd - ylo
  {
    var front := ColumnScan(col, ylo, yEnd - 1);
    assert ColumnScan(col, ylo, yEnd) == front + col[yEnd - 1];
    if c in col[yEnd - 1] {
      y := yEnd - 1;
    } else {
      assert c in front;
      y := ColumnScanWitness(col, ylo, yEnd - 1, c);
    }
  }

  /** A client of a scanned cell is in the scan. */
  lemma {:induction false} ScanHas(view: seq<seq<seq<Client>>>, xlo: int, xEnd: int, ylo: int, yEnd: int, x: int, y: int, c: Client)
    requires 0 <= xlo <= x < xEnd <= |view| && Rows(view, |view[0]|) && 0 <= ylo <= y < yEnd <= |view[0]|
    requires c in view[x][y]
    ensures c in Scan(view, xlo, xEnd, ylo, yEnd)
    decreases xEnd - xlo
  {
    var front, last := Scan(view, xlo, xEnd - 1, ylo, yEnd), ColumnScan(view[xEnd - 1], ylo, yEnd);
    assert Scan(view, xlo, xEnd, ylo, yEnd) == front + last;
    if x < xEnd - 1 {
      ScanHas(view, xlo, xEnd - 1, ylo, yEnd, x, y, c);
    } else {
      assert |view[x]| == |view[0]|;
      ColumnScanHas(view[x], ylo, yEnd, y, c);
    }
  }

  /** A client in the scan is a client of one of the scanned cells. */
  lemma {:induction false} ScanWitness(view: seq<seq<seq<Client>>>, xlo: int, xEnd: int, ylo: int, yEnd: int, c: Client)
    returns (x: int, y: int)
    requires 0 <= xlo && xEnd <= |view| && 0 <= ylo && |view| > 0 && Rows(view, |view[0]|) && yEnd <= |view[0]|
    requires c in Scan(view, xlo, xEnd, ylo, yEnd)
    ensures xlo <= x < xEnd && ylo <= y < yEnd && c in view[x][y]
    decreases xEnd - xlo
  {
    var front, last := Scan(view, xlo, xEnd - 1, ylo, yEnd), ColumnScan(view[xEnd - 1], ylo, yEnd);
    assert Scan(view, xlo, xEnd, ylo, yEnd) == front + last;
    if c in last {
      x := xEnd - 1;
      y := ColumnScanWitness(view[x], ylo, yEnd, c);
    } else {
      assert c in front;
      x, y := ScanWitness(view, xlo, xEnd - 1, ylo, yEnd, c);
    }
  }

  /** Each cell `(x, y)` of `view` lists exactly the clients of `regs` whose rectangle holds it. */
  ghost predicate Listing(view: seq<seq<seq<Client>>>, regs: map<Client, ClientCells>)
  {
    forall x: int, y: int {:trigger CellListing(view[x][y], regs, x, y)} ::
      0 <= x < |view| && 0 <= y < |view[x]| ==> CellListing(view[x][y], regs, x, y)
  }

  /** `cell`, at column `x` and row `y`, lists exactly the clients of `regs` whose rectangle holds it. */
  ghost predicate CellListing(cell: seq<Client>, regs: map<Client, ClientCells>, x: int, y: int)
  {
    (forall c: Client :: c in cell ==> c in regs && InRect(regs[c].min, regs[c].max, x, y)) &&
    (forall c: Client :: c in regs && InRect(regs[c].min, regs[c].max, x, y) ==> c in cell)
  }


  /**
   * The clients found in the rectangle from `i1` to `i2` are exactly the registered clients
   * whose own rectangle shares a cell with it.
   */
  lemma ScanMeets(view: seq<seq<seq<Client>>>, regs: map<Client, ClientCells>, i1: CellIndex, i2: CellIndex, c: Client)
    requires |view| > 0 && Rows(view, |view[0]|) && Listing(view, regs)
    requires 0 <= i1.x && i2.x < |view| && 0 <= i1.y && i2.y < |view[0]|
    ensures c in Scan(view, i1.x, i2.x + 1, i1.y, i2.y + 1) <==> c in regs && RectsMeet(regs[c].min, regs[c].max, i1, i2)
  {
    ScannedMeets(view, regs, i1, i2, c);
    MeetsScanned(view, regs, i1, i2, c);
  }

  /** A client met by the scan lists a cell of the query rectangle, so its rectangle meets it. */
  lemma ScannedMeets(view: seq<seq<seq<Client>>>, regs: map<Client, ClientCells>, i1: CellIndex, i2: CellIndex, c: Client)
    requires |view| > 0 && Rows(view, |view[0]|) && Listing(view, regs)
    requires 0 <= i1.x && i2.x < |view| && 0 <= i1.y && i2.y < |view[0]|
    ensures c in Scan(view, i1.x, i2.x + 1, i1.y, i2.y + 1) ==> c in regs && RectsMeet(regs[c].min, regs[c].max, i1, i2)
  {
    if c in Scan(view, i1.x, i2.x + 1, i1.y, i2.y + 1) {
      var x, y := ScanWitness(view, i1.x, i2.x + 1, i1.y, i2.y + 1, c);
      assert CellListing(view[x][y], regs, x, y);
    }
  }

  /** A client whose rectangle meets the query rectangle lists their corner cell, so the scan meets it. */
  lemma MeetsScanned(view: seq<seq<seq<Client>>>, regs: map<Client, ClientCells>, i1: CellIndex, i2: CellIndex, c: Client)
    requires |view| > 0 && Rows(view, |view[0]|) && Listing(view, regs)
    requires 0 <= i1.x && i2.x < |view| && 0 <= i1.y && i2.y < |view[0]|
    ensures c in regs && RectsMeet(regs[c].min, regs[c].max, i1, i2) ==> c in Scan(view, i1.x, i2.x + 1, i1.y, i2.y + 1)
  {
    if c in regs && RectsMeet(regs[c].min, regs[c].max, i1, i2) {
      var x, y := CornerListed(view, regs, i1, i2, c);
      ScanHas(view, i1.x, i2.x + 1, i1.y, i2.y + 1, x, y, c);
    }
  }

  /** A client whose rectangle meets the query rectangle is listed in a cell of the query rectangle. */
  lemma CornerListed(view: seq<seq<seq<Client>>>, regs: map<Client, ClientCells>, i1: CellIndex, i2: CellIndex, c: Client)
    returns (x: int, y: int)
    requires |view| > 0 && Rows(view, |view[0]|) && Listing(view, regs)
    requires 0 <= i1.x && i2.x < |view| && 0 <= i1.y && i2.y < |view[0]|
    requires c in regs && RectsMeet(regs[c].min, regs[c].max, i1, i2)
    ensures i1.x <= x <= i2.x && i1.y <= y <= i2.y && |view[x]| == |view[0]| && c in view[x][y]
  {
    x, y := Corner(regs[c].min, regs[c].max, i1, i2);
    assert |view[x]| == |view[0]|;
    Listed(view, regs, x, y, c);
  }

  /** A client whose rectangle holds a cell of `view` is listed in that cell. */
  lemma Listed(view: seq<seq<seq<Client>>>, regs: map<Client, ClientCells>, x: int, y: int, c: Client)
    requires Listing(view, regs) && 0 <= x < |view| && 0 <= y < |view[x]|
    requires c in regs && InRect(regs[c].min, regs[c].max, x, y)
    ensures c in view[x][y]
  {
    assert CellListing(view[x][y], regs, x, y);
  }

  /** Two rectangles that meet share their corner cell nearest to the origin. */
  lemma Corner(a1: CellIndex, a2: CellIndex, i1: CellIndex, i2: CellIndex) returns (x: int, y: int)
    requires RectsMeet(a1, a2, i1, i2)
    ensures InRect(a1, a2, x, y) && InRect(i1, i2, x, y)
  {
    x := if a1.x < i1.x then i1.x else a1.x;
    y := if a1.y < i1.y then i1.y else a1.y;
  }


  /**
   * While a query stamped `qid` runs: the clients found so far are exactly the clients of
   * `regs` stamped `qid`, and no client of `regs` carries a newer stamp.
   */
  ghost predicate Marked(regs: set<Client>, found: seq<Client>, qid: int)
    reads regs`queryId
  {
    (forall c: Client :: c in found ==> c in regs && c.queryId == qid) &&
    (forall c: Client :: c in regs ==> c.queryId <= qid && (c.queryId == qid ==> c in found))
  }

  /** Node `list[k]` of `arena` holds client `members[k]`, one of `regs`, and links to the next node. */
  ghost predicate StepOk(arena: map<NodeId, Node>, list: seq<NodeId>, members: seq<Client>, regs: set<Client>, k: int)
  {
    0 <= k < |list| && k < |members| && list[k] in arena &&
    arena[list[k]].client == members[k] && members[k] in regs && arena[list[k]].next == NextOf(list, k)
  }

  /** Following `next` from the head of `list` in `arena` visits `list`, whose clients are `members`. */
  ghost predicate Walk(arena: map<NodeId, Node>, list: seq<NodeId>, members: seq<Client>, regs: set<Client>)
  {
    |members| == |list| && forall k :: 0 <= k < |list| ==> StepOk(arena, list, members, regs, k)
  }

  /** A cell ready to be scanned can be walked. */
  lemma CellWalk(arena: map<NodeId, Node>, list: seq<NodeId>, members: seq<Client>, regs: set<Client>)
    requires CellReady(arena, list, members, regs)
    ensures Walk(arena, list, members, regs)
  {
    forall k | 0 <= k < |list|
      ensures StepOk(arena, list, members, regs, k)
    {
      assert LinkAt(arena, list, k);
    }
  }

  /** Entry `n0 + k + 1` of `p` extends entry `n0 + k` by `members[k]` exactly when that client is new. */
  ghost predicate TakeStep(p: seq<seq<Client>>, n0: int, members: seq<Client>, k: int)
  {
    0 <= n0 && 0 <= k < |members| && n0 + k + 1 < |p| &&
    p[n0 + k + 1] == if members[k] in p[n0 + k] then p[n0 + k] else p[n0 + k] + [members[k]]
  }

  /**
   * The deduplicated prefixes of `seen + members` from `seen` on: entry `|seen|` is `found`,
   * the last is `Dedup(seen + members)`, and each next entry takes one more of `members`.
   */
  lemma TakeTable(seen: seq<Client>, members: seq<Client>, found: seq<Client>) returns (p: seq<seq<Client>>)
    requires found == Dedup(seen)
    ensures |p| == |seen| + |members| + 1 && p[|seen|] == found && p[|seen| + |members|] == Dedup(seen + members)
    ensures forall k :: 0 <= k < |members| ==> TakeStep(p, |seen|, members, k)
  {
    var all := seen + members;
    DedupUpToPrefix(seen, members, |seen|);
    p := DedupPrefixes(all, |seen|);
    forall k | 0 <= k < |members|
      ensures TakeStep(p, |seen|, members, k)
    {
      assert PrefixStep(p, all, |seen| + k) && all[|seen| + k] == members[k];
    }
  }

  /**
   * The innermost loop of `FindNear`: walks a cell's list from `head`, stamping and taking
   * each client not stamped `qid` yet.
   */
  method ScanList(arena: map<NodeId, Node>, head: Option<NodeId>, qid: int, ghost regs: set<Client>,
                  ghost list: seq<NodeId>, ghost members: seq<Client>, ghost seen: seq<Client>, found: seq<Client>)
    returns (result: seq<Client>)
    requires Walk(arena, list, members, regs) && head == HeadOf(list)
    requires found == Dedup(seen) && Marked(regs, found, qid)
    modifies regs`queryId
    ensures result == Dedup(seen + members) && Marked(regs, result, qid)
    ensures forall c: Client :: c in regs && c.queryId != qid ==> c.queryId == old(c.queryId)
  {
    ghost var p: seq<seq<Client>>;
    p := TakeTable(seen, members, found);
    result := found;
    var node := head;
    ghost var k := 0;
    while node.Some?
      invariant 0 <= k <= |list| && node == (if k < |list| then Some(list[k]) else None)
      invariant result == p[|seen| + k] && Marked(regs, result, qid)
      invariant forall c: Client :: c in regs && c.queryId != qid ==> c.queryId == old(c.queryId)
      decreases |list| - k
    {
      assert StepOk(arena, list, members, regs, k) && TakeStep(p, |seen|, members, k);
      var v := arena[node.value].client;
      node := arena[node.value].next;
      if v.queryId != qid {
        v.queryId := qid;
        result := result + [v];
      }
      k := k + 1;
    }
  }

  /** Entry `i + 1` of `q` extends entry `i` by the clients of cell `ylo + i` of `col`. */
  ghost predicate ColumnStep(q: seq<seq<Client>>, col: seq<seq<Client>>, ylo: int, i: int)
  {
    0 <= i && i + 1 < |q| && 0 <= ylo + i < |col| && q[i + 1] == q[i] + col[ylo + i]
  }

  /** Entry `i` is `seen` followed by the clients of cells `ylo` to `ylo + i - 1` of `col`. */
  ghost function ColumnTable(col: seq<seq<Client>>, ylo: int, yEnd: int, seen: seq<Client>): (q: seq<seq<Client>>)
    requires 0 <= ylo <= yEnd <= |col|
    ensures |q| == yEnd - ylo + 1
    ensures forall i :: 0 <= i <= yEnd - ylo ==> q[i] == seen + ColumnScan(col, ylo, ylo + i)
  {
    seq(yEnd - ylo + 1, i requires 0 <= i <= yEnd - ylo => seen + ColumnScan(col, ylo, ylo + i))
  }

  lemma ColumnPrefixes(col: seq<seq<Client>>, ylo: int, yEnd: int, seen: seq<Client>) returns (q: seq<seq<Client>>)
    requires 0 <= ylo <= yEnd <= |col|
    ensures |q| == yEnd - ylo + 1 && q[0] == seen && q[yEnd - ylo] == seen + ColumnScan(col, ylo, yEnd)
    ensures forall i :: 0 <= i < yEnd - ylo ==> ColumnStep(q, col, ylo, i)
  {
    q := ColumnTable(col, ylo, yEnd, seen);
    assert q[0] == seen + ColumnScan(col, ylo, ylo) && ColumnScan(col, ylo, ylo) == [];
    assert seen + [] == seen;
    forall i | 0 <= i < yEnd - ylo
      ensures ColumnStep(q, col, ylo, i)
    {
      ColumnStepOf(q, col, ylo, seen, i);
    }
  }

  /** Two table entries that are `seen` followed by consecutive column scans make a column step. */
  lemma ColumnStepOf(q: seq<seq<Client>>, col: seq<seq<Client>>, ylo: int, seen: seq<Client>, i: int)
    requires 0 <= ylo && 0 <= i && ylo + i < |col| && i + 1 < |q|
    requires q[i] == seen + ColumnScan(col, ylo, ylo + i) && q[i + 1] == seen + ColumnScan(col, ylo, ylo + i + 1)
    ensures ColumnStep(q, col, ylo, i)
  {
    ColumnScanStep(col, ylo, ylo + i, seen);
  }

  /** Cell `x`, `y` of `cells` heads `lists[y]`, which can be walked and lists the clients `col[y]`. */
  ghost predicate CellOk(cells: array2<Option<NodeId>>, arena: map<NodeId, Node>, x: int, y: int,
                         lists: seq<seq<NodeId>>, col: seq<seq<Client>>, regs: set<Client>)
    reads cells
  {
    0 <= x < cells.Length0 && 0 <= y < cells.Length1 && y < |lists| && y < |col| &&
    cells[x, y] == HeadOf(lists[y]) && Walk(arena, lists[y], col[y], regs)
  }

  /** Entry `i` lists the clients of columns `xlo` to `xlo + i - 1` of `view`, rows `ylo` to `yEnd - 1`. */
  ghost function RectTable(view: seq<seq<seq<Client>>>, xlo: int, xEnd: int, ylo: int, yEnd: int): (r: seq<seq<Client>>)
    requires 0 <= xlo <= xEnd <= |view| && 0 <= ylo && |view| > 0 && Rows(view, |view[0]|) && yEnd <= |view[0]|
    ensures |r| == xEnd - xlo + 1
    ensures forall i :: 0 <= i <= xEnd - xlo ==> r[i] == Scan(view, xlo, xlo + i, ylo, yEnd)
  {
    seq(xEnd - xlo + 1, i requires 0 <= i <= xEnd - xlo => Scan(view, xlo, xlo + i, ylo, yEnd))
  }

  lemma RectPrefixes(view: seq<seq<seq<Client>>>, xlo: int, xEnd: int, ylo: int, yEnd: int) returns (r: seq<seq<Client>>)
    requires 0 <= xlo <= xEnd <= |view| && 0 <= ylo && |view| > 0 && Rows(view, |view[0]|) && yEnd <= |view[0]|
    ensures |r| == xEnd - xlo + 1 && r[0] == [] && r[xEnd - xlo] == Scan(view, xlo, xEnd, ylo, yEnd)
    ensures forall i :: 0 <= i < xEnd - xlo ==> RectStep(r, view, xlo, ylo, yEnd, i)
  {
    r := RectTable(view, xlo, xEnd, ylo, yEnd);
    assert r[0] == Scan(view, xlo, xlo, ylo, yEnd) && r[xEnd - xlo] == Scan(view, xlo, xEnd, ylo, yEnd);
    forall i | 0 <= i < xEnd - xlo
      ensures RectStep(r, view, xlo, ylo, yEnd, i)
    {
      assert |view[xlo + i]| == |view[0]|;
      assert r[i] == Scan(view, xlo, xlo + i, ylo, yEnd) && r[i + 1] == Scan(view, xlo, xlo + i + 1, ylo, yEnd);
      ScanStep(view, xlo, xlo + i, ylo, yEnd);
    }
  }

  /** Every cell of column `x` of `cells` from row `ylo` to row `yhi` is ready to be scanned. */
  ghost predicate ColumnOk(cells: array2<Option<NodeId>>, arena: map<NodeId, Node>, x: int, ylo: int, yhi: int,
                           lists: seq<seq<NodeId>>, col: seq<seq<Client>>, regs: set<Client>)
    reads cells
  {
    0 <= x < cells.Length0 && 0 <= ylo < cells.Length1 && yhi < cells.Length1 &&
    |lists| == |col| == cells.Length1 &&
    forall y :: ylo <= y <= yhi ==> CellOk(cells, arena, x, y, lists, col, regs)
  }

  /**
   * The second loop of `FindNear`: the cells `ylo` to `yhi` of column `x` of `cells`, whose
   * lists are `lists` and list the clients `col`.
   */
  method ScanColumn(cells: array2<Option<NodeId>>, arena: map<NodeId, Node>, x: int, ylo: int, yhi: int, qid: int,
                    ghost regs: set<Client>, ghost lists: seq<seq<NodeId>>, ghost col: seq<seq<Client>>,
                    ghost seen: seq<Client>, found: seq<Client>) returns (result: seq<Client>)
    requires ColumnOk(cells, arena, x, ylo, yhi, lists, col, regs)
    requires found == Dedup(seen) && Marked(regs, found, qid)
    modifies regs`queryId
    ensures result == Dedup(seen + ColumnScan(col, ylo, yhi + 1)) && Marked(regs, result, qid)
    ensures forall c: Client :: c in regs && c.queryId != qid ==> c.queryId == old(c.queryId)
  {
    ghost var yEnd := if ylo <= yhi then yhi + 1 else ylo;
    ghost var q: seq<seq<Client>>;
    q := ColumnPrefixes(col, ylo, yEnd, seen);
    result := found;
    var y := ylo;
    while y <= yhi
      invariant ylo <= y <= yEnd
      invariant result == Dedup(q[y - ylo]) && Marked(regs, result, qid)
      invariant forall c: Client :: c in regs && c.queryId != qid ==> c.queryId == old(c.queryId)
    {
      assert CellOk(cells, arena, x, y, lists, col, regs);
      assert ColumnStep(q, col, ylo, y - ylo);
      result := ScanList(arena, cells[x, y], qid, regs, lists[y], col[y], q[y - ylo], result);
      y := y + 1;
    }
    assert ColumnScan(col, ylo, yEnd) == ColumnScan(col, ylo, yhi + 1);
  }

  /** `list` is a linked list of `arena` whose clients are `members` and lie in `regs`. */
  ghost predicate CellReady(arena: map<NodeId, Node>, list: seq<NodeId>, members: seq<Client>, regs: set<Client>)
  {
    ListLinked(arena, list) && members == ClientsOf(arena, list) &&
    forall k :: 0 <= k < |list| ==> arena[list[k]].client in regs
  }

  /** Each cell of `cells` holds the head of its list in `lists`. */
  ghost predicate Heads(cells: array2<Option<NodeId>>, lists: seq<seq<seq<NodeId>>>)
    reads cells
  {
    |lists| == cells.Length0 && (forall x :: 0 <= x < |lists| ==> |lists[x]| == cells.Length1) &&
    forall x, y :: 0 <= x < cells.Length0 && 0 <= y < cells.Length1 ==> cells[x, y] == HeadOf(lists[x][y])
  }

  /**
   * What the walks of `FindNear` rely on: each list `lists[x][y]` is a linked list of `arena`
   * whose clients are `view[x][y]` and lie in `regs`.
   */
  ghost predicate GridReady(arena: map<NodeId, Node>, lists: seq<seq<seq<NodeId>>>, view: seq<seq<seq<Client>>>,
                            regs: set<Client>)
  {
    |lists| == |view| &&
    (forall x :: 0 <= x < |lists| ==> |lists[x]| == |view[x]|) &&
    forall x, y :: 0 <= x < |lists| && 0 <= y < |lists[x]| ==> CellReady(arena, lists[x][y], view[x][y], regs)
  }

  /**
   * What a query of the cells `lo` to `hi` yields: the clients of those cells, column by
   * column, each kept at its first appearance.
   */
  function Query(view: seq<seq<seq<Client>>>, lo: CellIndex, hi: CellIndex): seq<Client>
    requires |view| > 0 && Rows(view, |view[0]|)
    requires 0 <= lo.x && hi.x < |view| && 0 <= lo.y && hi.y < |view[0]|
  {
    Dedup(Scan(view, lo.x, hi.x + 1, lo.y, hi.y + 1))
  }

  /** The columns of a ready grid that a query rectangle covers, each ready to be scanned. */
  lemma RectReady(cells: array2<Option<NodeId>>, arena: map<NodeId, Node>, lists: seq<seq<seq<NodeId>>>,
                  view: seq<seq<seq<Client>>>, regs: set<Client>, i1: CellIndex, i2: CellIndex)
    requires Heads(cells, lists) && GridReady(arena, lists, view, regs)
    requires 0 <= i1.x < cells.Length0 && i2.x < cells.Length0 && 0 <= i1.y < cells.Length1 && i2.y < cells.Length1
    ensures |view| == |lists| == cells.Length0 && Rows(view, cells.Length1)
    ensures forall x :: i1.x <= x <= i2.x ==> ColumnOk(cells, arena, x, i1.y, i2.y, lists[x], view[x], regs)
  {
    forall x | i1.x <= x <= i2.x
      ensures ColumnOk(cells, arena, x, i1.y, i2.y, lists[x], view[x], regs)
    {
      forall y | i1.y <= y <= i2.y
        ensures CellOk(cells, arena, x, y, lists[x], view[x], regs)
      {
        CellWalk(arena, lists[x][y], view[x][y], regs);
      }
    }
  }


  /**
   * The first loop of `FindNear`: columns `i1.x` to `i2.x`, rows `i1.y` to `i2.y`, stamping
   * every client found with `qid`, which no client of `regs` carries yet.
   */
  method ScanRect(cells: array2<Option<NodeId>>, arena: map<NodeId, Node>, i1: CellIndex, i2: CellIndex, qid: int,
                  ghost regs: set<Client>, ghost lists: seq<seq<seq<NodeId>>>, ghost view: seq<seq<seq<Client>>>)
    returns (result: seq<Client>)
    requires 0 <= i1.x < cells.Length0 && i2.x < cells.Length0 && 0 <= i1.y < cells.Length1 && i2.y < cells.Length1
    requires |view| == |lists| == cells.Length0 && Rows(view, cells.Length1)
    requires forall x :: i1.x <= x <= i2.x ==> ColumnOk(cells, arena, x, i1.y, i2.y, lists[x], view[x], regs)
    requires forall c: Client :: c in regs ==> c.queryId < qid
    modifies regs`queryId
    ensures |view| > 0 && Rows(view, |view[0]|)
    ensures result == Query(view, i1, i2) && Marked(regs, result, qid)
    ensures forall c: Client :: c in regs && c.queryId != qid ==> c.queryId == old(c.queryId)
  {
    assert |view[0]| == cells.Length1;
    ghost var xEnd := if i1.x <= i2.x then i2.x + 1 else i1.x;
    ghost var r: seq<seq<Client>>;
    r := RectPrefixes(view, i1.x, xEnd, i1.y, i2.y + 1);
    assert Dedup([]) == [];
    result := [];
    var x := i1.x;
    while x <= i2.x
      invariant i1.x <= x <= xEnd
      invariant result == Dedup(r[x - i1.x]) && Marked(regs, result, qid)
      invariant forall c: Client :: c in regs && c.queryId != qid ==> c.queryId == old(c.queryId)
    {
      assert RectStep(r, view, i1.x, i1.y, i2.y + 1, x - i1.x);
      assert ColumnOk(cells, arena, x, i1.y, i2.y, lists[x], view[x], regs);
      result := ScanColumn(cells, arena, x, i1.y, i2.y, qid, regs, lists[x], view[x], r[x - i1.x], result);
      x := x + 1;
    }
    assert Scan(view, i1.x, xEnd, i1.y, i2.y + 1) == Scan(view, i1.x, i2.x + 1, i1.y, i2.y + 1);
  }

  /** `found` holds exactly the clients of `regs` whose rectangle meets the rectangle `i1`..`i2`. */
  ghost predicate Near(found: seq<Client>, regs: map<Client, ClientCells>, i1: CellIndex, i2: CellIndex)
  {
    (forall c: Client :: c in found ==> c in regs && RectsMeet(regs[c].min, regs[c].max, i1, i2)) &&
    (forall c: Client :: c in regs && RectsMeet(regs[c].min, regs[c].max, i1, i2) ==> c in found)
  }

  /**
   * What `FindNear` returns, once de-duplicated: exactly the clients whose rectangle meets the
   * query rectangle, each once.
   */
  lemma ScanFound(view: seq<seq<seq<Client>>>, regs: map<Client, ClientCells>, i1: CellIndex, i2: CellIndex,
                  result: seq<Client>)
    requires |view| > 0 && Rows(view, |view[0]|) && Listing(view, regs)
    requires 0 <= i1.x && i2.x < |view| && 0 <= i1.y && i2.y < |view[0]|
    requires result == Query(view, i1, i2)
    ensures Distinct(result) && Near(result, regs, i1, i2)
  {
    DedupSpec(Scan(view, i1.x, i2.x + 1, i1.y, i2.y + 1));
    forall c: Client
      ensures c in result <==> c in regs && RectsMeet(regs[c].min, regs[c].max, i1, i2)
    {
      ScanMeets(view, regs, i1, i2, c);
    }
  }

  /** Dropping an entry and adding it back with a new value is the same as replacing it. */
  lemma ReplaceEntry(regs: map<Client, ClientCells>, c: Client, v: ClientCells)
    ensures (regs - {c})[c := v] == regs[c := v]
  {
  }

  // -----------------------------------------------------------------------------------------
  // The grid

  class SpatialGrid {
    const bounds: Bounds
    const dimensions: Dims
    /** `_cells`: the head of each cell's list. */
    const cells: array2<Option<NodeId>>
    /** The list nodes, addressed by id; `nextNode` is the next unused id. */
    var nodes: map<NodeId, Node>
    var nextNode: NodeId
    /** `_queryIds`: the stamp the next `FindNear` uses. */
    var queryIds: int

    /** Each cell's list, from head to tail. */
    ghost var Lists: seq<seq<seq<NodeId>>>
    /** The cell each listed node lies in. */
    ghost var Where: map<NodeId, CellIndex>
    /** The clients currently inserted, with the cells each was inserted into. */
    ghost var Regs: map<Client, ClientCells>

    /** The grid covers a proper rectangle with at least one cell along each axis. */
    predicate Wf()
    {
      bounds.minX < bounds.maxX && bounds.minZ < bounds.maxZ && dimensions.x >= 1 && dimensions.y >= 1
    }

    predicate InGrid(x: int, y: int)
    {
      InDims(dimensions, x, y)
    }

    /**
     * The heads in `cells` and the `next`/`prev` links in `nodes` spell out the lists in
     * `Lists`, whose nodes all exist and lie in their own cell only.
     */
    ghost predicate Linked()
      reads this`nodes, this`nextNode, this`Lists, this`Where, cells
    {
      cells.Length0 == dimensions.x && cells.Length1 == dimensions.y && ShapedBy(Lists, dimensions) &&
      (forall i :: i in nodes ==> i < nextNode) &&
      (forall x, y {:trigger cells[x, y]} :: 0 <= x < dimensions.x && 0 <= y < dimensions.y ==> cells[x, y] == HeadOf(Lists[x][y])) &&
      Arranged(nodes, Where, Lists)
    }

    /**
     * Each inserted client's `_cells` is its entry in `Regs`, and the lists agree with
     * `Regs`: a client appears exactly once in each cell of its rectangle and nowhere else.
     */
    ghost predicate Indexed()
      reads this`nodes, this`Lists, this`Regs, Regs.Keys`cells
    {
      IndexedBy(nodes, Lists, Regs, dimensions) &&
      forall c: Client :: c in Regs ==> c.cells == Some(Regs[c])
    }

    /** Every inserted client carries a stamp older than the next query's. */
    ghost predicate Stamped()
      reads this`queryIds, this`Regs, Regs.Keys`queryId
    {
      queryIds >= 0 && forall c: Client :: c in Regs ==> c.queryId < queryIds
    }

    /** The shape of the grid: its lists, the registry and the clients' `_cells` agree. */
    ghost predicate Valid()
      reads this`nodes, this`nextNode, this`Lists, this`Where, this`Regs, cells, Regs.Keys`cells
    {
      Wf() && Linked() && Indexed()
    }

    /** The clients listed in cell `(x, y)`, from head to tail. */
    ghost function Members(x: int, y: int): seq<Client>
      reads this`nodes, this`nextNode, this`Lists, this`Where, cells
      requires Linked() && InGrid(x, y)
    {
      LinkedAt(x, y);
      ClientsOf(nodes, Lists[x][y])
    }

    /**
     * A cell lists exactly the inserted clients whose rectangle holds the cell, each once.
     */
    lemma MembersIndexed(x: int, y: int)
      requires Linked() && Indexed() && InGrid(x, y)
      ensures forall c: Client :: c in Members(x, y) <==> c in Regs && InRect(Regs[c].min, Regs[c].max, x, y)
      ensures Distinct(Members(x, y))
    {
      var l, m := Lists[x][y], Members(x, y);
      assert CellIndexed(nodes, Regs, l, x, y);
      forall k | 0 <= k < |l|
        ensures l[k] in nodes && m[k] == nodes[l[k]].client && m[k] in Regs && InRect(Regs[m[k]].min, Regs[m[k]].max, x, y) &&
          NodeAt(Regs[m[k]], x, y) == l[k]
      {
        assert IndexedAt(nodes, Regs, l, x, y, k);
      }
      forall c: Client | c in Regs && InRect(Regs[c].min, Regs[c].max, x, y) ensures c in m {
        assert RegWf(Regs[c], dimensions) && ClientIndexed(nodes, Lists, Regs[c], c);
        var k :| 0 <= k < |l| && l[k] == NodeAt(Regs[c], x, y);
        assert m[k] == c;
      }
      forall i, j | 0 <= i < j < |m| ensures m[i] != m[j] {
        if m[i] == m[j] {
          assert l[i] == NodeAt(Regs[m[i]], x, y) == l[j];
          LinkedAt(x, y);
          assert false;
        }
      }
    }

    /** The clients listed in the first `n` cells of column `x`. */
    ghost function ColumnView(x: int, n: int): (col: seq<seq<Client>>)
      reads this`nodes, this`nextNode, this`Lists, this`Where, cells
      requires Linked() && 0 <= x < dimensions.x && 0 <= n <= dimensions.y
      ensures |col| == n && forall y :: 0 <= y < n ==> col[y] == Members(x, y)
    {
      if n == 0 then [] else ColumnView(x, n - 1) + [Members(x, n - 1)]
    }

    /** The clients listed in every cell of the first `n` columns. */
    ghost function ViewUpTo(n: int): (v: seq<seq<seq<Client>>>)
      reads this`nodes, this`nextNode, this`Lists, this`Where, cells
      requires Linked() && 0 <= n <= dimensions.x
      ensures |v| == n && forall x :: 0 <= x < n ==> v[x] == ColumnView(x, dimensions.y)
    {
      if n == 0 then [] else ViewUpTo(n - 1) + [ColumnView(n - 1, dimensions.y)]
    }

    /** The clients listed in every cell, column by column. */
    ghost function View(): (v: seq<seq<seq<Client>>>)
      reads this`nodes, this`nextNode, this`Lists, this`Where, cells
      requires Linked()
      ensures |v| == dimensions.x && Rows(v, dimensions.y)
      ensures forall x, y :: InGrid(x, y) ==> v[x][y] == Members(x, y)
    {
      ViewUpTo(dimensions.x)
    }

    /** Each cell of the view lists exactly the inserted clients whose rectangle holds the cell. */
    lemma ViewIndexed()
      requires Linked() && Indexed()
      ensures Listing(View(), Regs)
    {
      var view := View();
      forall x, y | 0 <= x < |view| && 0 <= y < |view[x]|
        ensures CellListing(view[x][y], Regs, x, y)
      {
        assert InGrid(x, y);
        MembersIndexed(x, y);
        assert Distinct(Members(x, y)) && view[x][y] == Members(x, y);
      }
    }

    /** The grid's invariants, stated on values for the walks of `FindNear`. */
    lemma Ready()
      requires Linked() && Indexed()
      ensures Heads(cells, Lists) && GridReady(nodes, Lists, View(), Regs.Keys) && Listing(View(), Regs)
    {
      var view := View();
      ViewIndexed();
      forall x, y | 0 <= x < cells.Length0 && 0 <= y < cells.Length1
        ensures CellReady(nodes, Lists[x][y], view[x][y], Regs.Keys)
      {
        LinkedAt(x, y);
        var l := Lists[x][y];
        assert CellIndexed(nodes, Regs, l, x, y);
        forall k | 0 <= k < |l| ensures nodes[l[k]].client in Regs.Keys {
          assert IndexedAt(nodes, Regs, l, x, y, k);
        }
      }
    }

    lemma LinkedAt(x: int, y: int)
      requires Linked() && InGrid(x, y)
      ensures CellArranged(nodes, Where, Lists[x][y], CellIndex(x, y)) && cells[x, y] == HeadOf(Lists[x][y])
    {
    }

    /** `constructor(bounds, dimensions)`: every cell starts with an empty list. */
    constructor (bounds: Bounds, dimensions: Dims)
      requires bounds.minX < bounds.maxX && bounds.minZ < bounds.maxZ
      requires dimensions.x >= 1 && dimensions.y >= 1
      ensures Valid() && Stamped() && this.bounds == bounds && this.dimensions == dimensions
      ensures Regs == map[] && queryIds == 0
      ensures forall x, y :: InGrid(x, y) ==> Members(x, y) == []
    {
      this.bounds := bounds;
      this.dimensions := dimensions;
      cells := new Option<NodeId>[dimensions.x, dimensions.y]((_, _) => None);
      nodes := map[];
      nextNode := 0;
      queryIds := 0;
      Lists := seq(dimensions.x, _ => seq(dimensions.y, _ => []));
      Where := map[];
      Regs := map[];
    }

    /** `_GetCellIndex`: the cell of a point of the XZ plane, clamped into the grid. */
    function GetCellIndex(px: real, pz: real): (i: CellIndex)
      requires Wf()
      ensures InGrid(i.x, i.y)
      ensures px < bounds.minX ==> i.x == 0
      ensures px >= bounds.maxX ==> i.x == dimensions.x - 1
      ensures pz < bounds.minZ ==> i.y == 0
      ensures pz >= bounds.maxZ ==> i.y == dimensions.y - 1
      ensures bounds.minX <= px < bounds.maxX ==> InCell(px, bounds.minX, bounds.maxX, dimensions.x, i.x)
      ensures bounds.minZ <= pz < bounds.maxZ ==> InCell(pz, bounds.minZ, bounds.maxZ, dimensions.y, i.y)
    {
      CellIndex(AxisIndex(px, bounds.minX, bounds.maxX, dimensions.x),
                AxisIndex(pz, bounds.minZ, bounds.maxZ, dimensions.y))
    }

    /**
     * The cell rectangle of a footprint of size `w` by `d` centred on `(px, pz)`: the cells
     * of its lower and of its upper corner.
     */
    function Footprint(px: real, pz: real, w: real, d: real): (r: (CellIndex, CellIndex))
      requires Wf()
      ensures InGrid(r.0.x, r.0.y) && InGrid(r.1.x, r.1.y)
    {
      (GetCellIndex(px - w / 2.0, pz - d / 2.0), GetCellIndex(px + w / 2.0, pz + d / 2.0))
    }

    /** The cells spanned by the bounding box of entity `e`, by its position and dimensions. */
    function Span(e: Entity): (CellIndex, CellIndex)
      reads e
      requires Wf()
    {
      Footprint(e.position.x, e.position.z, e.dimensions.width, e.dimensions.depth)
    }

    /**
     * The footprint of `e` (its XZ extent about its position) and a box of size `w` by `h`
     * centred on `(px, pz)` overlap, faces touching included.
     */
    predicate Overlaps(e: Entity, px: real, pz: real, w: real, h: real)
      reads e
    {
      e.dimensions.width >= 0.0 && e.dimensions.depth >= 0.0 && w >= 0.0 && h >= 0.0 &&
      Abs(e.position.x - px) <= (e.dimensions.width + w) / 2.0 &&
      Abs(e.position.z - pz) <= (e.dimensions.depth + h) / 2.0
    }

    /** Overlapping footprints give cell rectangles that share a cell. */
    lemma FootprintsMeet(ax: real, az: real, aw: real, ad: real, bx: real, bz: real, bw: real, bd: real)
      requires Wf() && aw >= 0.0 && ad >= 0.0 && bw >= 0.0 && bd >= 0.0
      requires Abs(ax - bx) <= (aw + bw) / 2.0 && Abs(az - bz) <= (ad + bd) / 2.0
      ensures var a, b := Footprint(ax, az, aw, ad), Footprint(bx, bz, bw, bd);
        RectsMeet(a.0, a.1, b.0, b.1)
    {
      AxisRangesMeet(ax - aw / 2.0, ax + aw / 2.0, bx - bw / 2.0, bx + bw / 2.0, bounds.minX, bounds.maxX, dimensions.x);
      AxisRangesMeet(az - ad / 2.0, az + ad / 2.0, bz - bd / 2.0, bz + bd / 2.0, bounds.minZ, bounds.maxZ, dimensions.y);
    }

    /**
     * `found` holds every inserted client whose cells still match its entity's footprint and
     * whose footprint overlaps the box of size `w` by `h` centred on `(px, pz)`.
     */
    ghost predicate Covers(found: seq<Client>, px: real, pz: real, w: real, h: real)
      reads this`Regs, Regs.Keys, set c | c in Regs :: c.entity
      requires Wf()
    {
      forall c: Client :: c in Regs && (Regs[c].min, Regs[c].max) == Span(c.entity) && Overlaps(c.entity, px, pz, w, h)
        ==> c in found
    }

    /**
     * Broad-phase soundness: a query result that holds every client whose cell rectangle meets
     * the query's holds every client whose footprint overlaps the query box.
     */
    lemma NearCovers(found: seq<Client>, px: real, pz: real, w: real, h: real)
      requires Wf()
      requires var r := Footprint(px, pz, w, h); Near(found, Regs, r.0, r.1)
      ensures Covers(found, px, pz, w, h)
    {
      forall c: Client | c in Regs && (Regs[c].min, Regs[c].max) == Span(c.entity) && Overlaps(c.entity, px, pz, w, h)
        ensures c in found
      {
        FootprintsMeet(c.entity.position.x, c.entity.position.z, c.entity.dimensions.width, c.entity.dimensions.depth,
                       px, pz, w, h);
      }
    }

    /**
     * `newClient`: an entity without `getPosition` or `getDimensions` is refused (the source
     * throws); otherwise a new client, with no cells and stamp -1, is inserted and returned.
     */
    method NewClient(entity: Entity) returns (r: Option<Client>)
      requires Valid() && Stamped()
      modifies this`nodes, this`nextNode, this`Lists, this`Where, this`Regs, cells
      ensures Valid() && Stamped()
      ensures r.Some? <==> entity.HasGetPosition && entity.HasGetDimensions
      ensures r.None? ==> Regs == old(Regs) && nodes == old(nodes) && Lists == old(Lists)
      ensures r.Some? ==>
        var client := r.value;
        fresh(client) && client.entity == entity && client.queryId == -1 &&
        client.cells.Some? && (client.cells.value.min, client.cells.value.max) == Span(entity) &&
        Regs == old(Regs)[client := client.cells.value] &&
        forall x, y :: InGrid(x, y) ==>
          Members(x, y) == (if InRect(Span(entity).0, Span(entity).1, x, y) then [client] else []) + old(Members(x, y))
    {
      if !entity.HasGetPosition || !entity.HasGetDimensions {
        return None;
      }
      var client := new Client(entity);
      Insert(client);
      r := Some(client);
    }

    /**
     * `_Insert`: a fresh node for `client` becomes the head of each cell its entity spans,
     * column by column, and the client records the rectangle and the table of its nodes.
     */
    method Insert(client: Client)
      requires Valid() && Stamped() && client !in Regs && client.queryId < queryIds
      modifies this`nodes, this`nextNode, this`Lists, this`Where, this`Regs, cells, client`cells
      ensures Valid() && Stamped()
      ensures client.cells.Some? && (client.cells.value.min, client.cells.value.max) == Span(client.entity)
      ensures Regs == old(Regs)[client := client.cells.value]
      ensures forall x, y :: InGrid(x, y) ==>
        Members(x, y) == (if InRect(Span(client.entity).0, Span(client.entity).1, x, y) then [client] else []) + old(Members(x, y))
    {
      var span := Span(client.entity);
      var i1, i2 := span.0, span.1;
      ghost var N0, L0 := nodes, Lists;
      var table := PushRect(i1, i2, client);
      var cc := ClientCells(i1, i2, table);
      client.cells := Some(cc);
      Regs := Regs[client := cc];
      assert Stamped();
      assert forall c: Client :: c in Regs ==> c.cells == Some(Regs[c]);
      InsertIndexed(N0, L0, old(Regs), nodes, client, cc, dimensions);
      forall x, y | InGrid(x, y)
        ensures Members(x, y) == (if InRect(Span(client.entity).0, Span(client.entity).1, x, y) then [client] else []) + old(Members(x, y))
      {
        assert CellIndexed(N0, old(Regs), L0[x][y], x, y);
        assert old(Members(x, y)) == ClientsOf(N0, L0[x][y]);
        HeadsMembers(N0, nodes, L0, cc, client, x, y);
      }
    }

    /** The loops of `_Insert`: heads for `client` in every cell from `i1` to `i2`, column by column. */
    method PushRect(i1: CellIndex, i2: CellIndex, client: Client) returns (table: seq<seq<NodeId>>)
      requires Linked() && InGrid(i1.x, i1.y) && InGrid(i2.x, i2.y)
      modifies this`nodes, this`nextNode, this`Lists, this`Where, cells
      ensures Linked() && Lists == WithHeads(old(Lists), i1, table)
      ensures CellsShaped(ClientCells(i1, i2, table))
      ensures forall r, s :: 0 <= r < |table| && 0 <= s < |table[r]| ==>
        table[r][s] in nodes && nodes[table[r][s]].client == client
      ensures forall i :: i in old(nodes) ==> i in nodes && nodes[i].client == old(nodes[i].client)
    {
      table := [];
      WithHeadsNone(Lists, i1);
      var x := i1.x;
      while x <= i2.x
        invariant i1.x <= x <= if i1.x <= i2.x then i2.x + 1 else i1.x
        invariant |table| == x - i1.x
        invariant forall r :: 0 <= r < |table| ==> |table[r]| == Count(i1.y, i2.y)
        invariant Linked() && Lists == WithHeads(old(Lists), i1, table)
        invariant Owned(nodes, table, client)
        invariant forall i :: i in old(nodes) ==> i in nodes && nodes[i].client == old(nodes[i].client)
      {
        ghost var n0 := nodes;
        var row := PushColumn(x, i1.y, i2.y, client);
        WithHeadsColumn(old(Lists), i1, table, x, row);
        OwnedAppend(n0, nodes, table, row, client);
        table := table + [row];
        x := x + 1;
      }
    }

    /** The inner loop of `_Insert`: heads for `client` in the cells `ylo` to `yhi` of column `x`. */
    method PushColumn(x: int, ylo: int, yhi: int, client: Client) returns (row: seq<NodeId>)
      requires Linked() && 0 <= x < dimensions.x && 0 <= ylo && yhi < dimensions.y
      modifies this`nodes, this`nextNode, this`Lists, this`Where, cells
      ensures Linked() && Lists == old(Lists[x := Headed(Lists[x], ylo, row)])
      ensures |row| == Count(ylo, yhi)
      ensures forall s :: 0 <= s < |row| ==> row[s] in nodes && nodes[row[s]].client == client
      ensures forall i :: i in old(nodes) ==> i in nodes && nodes[i].client == old(nodes[i].client)
    {
      row := [];
      HeadedNone(Lists[x], ylo);
      var y := ylo;
      while y <= yhi
        invariant ylo <= y <= if ylo <= yhi then yhi + 1 else ylo
        invariant |row| == y - ylo
        invariant Linked() && Lists == old(Lists[x := Headed(Lists[x], ylo, row)])
        invariant forall s :: 0 <= s < |row| ==> row[s] in nodes && nodes[row[s]].client == client
        invariant forall i :: i in old(nodes) ==> i in nodes && nodes[i].client == old(nodes[i].client)
      {
        var id := PushFront(x, y, client);
        HeadedPush(old(Lists[x]), ylo, row, y, id);
        row := row + [id];
        y := y + 1;
      }
    }

    /**
     * `FindNear`: every inserted client listed in a cell of the rectangle covered by a box of
     * size `w` by `h` centred on `(px, pz)`, once each, in the order first met walking the
     * cells column by column and each cell's list from its head; the query's stamp marks
     * the clients already taken.
     */
    method FindNear(px: real, pz: real, w: real, h: real) returns (result: seq<Client>)
      requires Valid() && Stamped()
      modifies this`queryIds, Regs.Keys`queryId
      ensures Valid() && Stamped() && queryIds == old(queryIds) + 1
      ensures Regs == old(Regs) && Lists == old(Lists) && nodes == old(nodes)
      ensures var r := Footprint(px, pz, w, h);
        result == Query(old(View()), r.0, r.1) && Near(result, Regs, r.0, r.1) && Distinct(result)
      ensures forall c: Client :: c in Regs ==> c.queryId == if c in result then old(queryIds) else old(c.queryId)
      ensures Covers(result, px, pz, w, h)
    {
      var r := Footprint(px, pz, w, h);
      var i1, i2 := r.0, r.1;
      ghost var view := View();
      Ready();
      RectReady(cells, nodes, Lists, view, Regs.Keys, i1, i2);
      var queryId := queryIds;
      queryIds := queryIds + 1;
      result := ScanRect(cells, nodes, i1, i2, queryId, Regs.Keys, Lists, view);
      ScanFound(view, Regs, i1, i2, result);
      NearCovers(result, px, pz, w, h);
    }

    /**
     * `UpdateClient`: a client whose entity still spans the cells it was inserted into is left
     * alone; otherwise it is removed and inserted again by its entity's current position.
     */
    method UpdateClient(client: Client)
      requires Valid() && Stamped() && client in Regs
      modifies this`nodes, this`nextNode, this`Lists, this`Where, this`Regs, cells, client`cells
      ensures Valid() && Stamped()
      ensures client.cells.Some? && (client.cells.value.min, client.cells.value.max) == Span(client.entity)
      ensures Regs == old(Regs)[client := client.cells.value]
      ensures (old(Regs[client].min), old(Regs[client].max)) == Span(client.entity) ==>
        nodes == old(nodes) && Lists == old(Lists) && Regs == old(Regs)
      ensures (old(Regs[client].min), old(Regs[client].max)) != Span(client.entity) ==>
        forall x, y :: InGrid(x, y) ==>
          Members(x, y) == (if InRect(Span(client.entity).0, Span(client.entity).1, x, y) then [client] else []) +
                           Without(old(Members(x, y)), client)
    {
      var span := Span(client.entity);
      var i1, i2 := span.0, span.1;
      assert client.cells == Some(Regs[client]);
      var cc := client.cells.value;
      if cc.min == i1 && cc.max == i2 {
        return;
      }
      Reinsert(client);
    }

    /** The second half of `UpdateClient`: `RemoveClient` followed by `_Insert`. */
    method Reinsert(client: Client)
      requires Valid() && Stamped() && client in Regs
      modifies this`nodes, this`nextNode, this`Lists, this`Where, this`Regs, cells, client`cells
      ensures Valid() && Stamped()
      ensures client.cells.Some? && (client.cells.value.min, client.cells.value.max) == Span(client.entity)
      ensures Regs == old(Regs)[client := client.cells.value]
      ensures forall x, y :: InGrid(x, y) ==>
        Members(x, y) == (if InRect(Span(client.entity).0, Span(client.entity).1, x, y) then [client] else []) +
                         Without(old(Members(x, y)), client)
    {
      ghost var span := Span(client.entity);
      RemoveClient(client);
      label Removed:
      Insert(client);
      ReplaceEntry(old(Regs), client, client.cells.value);
      forall x, y | InGrid(x, y)
        ensures Members(x, y) == (if InRect(span.0, span.1, x, y) then [client] else []) + Without(old(Members(x, y)), client)
      {
        assert old@Removed(Members(x, y)) == Without(old(Members(x, y)), client);
      }
    }

    /**
     * `RemoveClient`: the client's node in each cell of its rectangle is bypassed, column by
     * column, and the client's `_cells` is cleared.
     */
    method RemoveClient(client: Client)
      requires Valid() && Stamped() && client in Regs
      modifies this`nodes, this`Lists, this`Regs, cells, client`cells
      ensures Valid() && Stamped() && Regs == old(Regs) - {client} && client.cells == None
      ensures forall x, y :: InGrid(x, y) ==> Members(x, y) == Without(old(Members(x, y)), client)
    {
      ghost var N0, L0 := nodes, Lists;
      assert RegWf(Regs[client], dimensions) && ClientIndexed(nodes, Lists, Regs[client], client);
      UnlinkRect(client.cells.value);
      client.cells := None;
      Regs := Regs - {client};
      assert Stamped();
      assert forall c: Client :: c in Regs ==> c.cells == Some(Regs[c]);
      RemoveIndexed(N0, L0, old(Regs), nodes, client, dimensions);
      forall x, y | InGrid(x, y)
        ensures Members(x, y) == Without(old(Members(x, y)), client)
      {
        ErasedMembers(N0, nodes, L0, old(Regs), client, dimensions, x, y);
        assert old(Members(x, y)) == ClientsOf(N0, L0[x][y]);
      }
    }

    /** The loops of `RemoveClient`: the node of `cc` in each cell of its rectangle is unlinked. */
    method UnlinkRect(cc: ClientCells)
      requires Linked() && RegWf(cc, dimensions)
      requires forall x, y :: InRect(cc.min, cc.max, x, y) ==> NodeAt(cc, x, y) in Lists[x][y]
      modifies this`nodes, this`Lists, cells
      ensures Linked() && Lists == Erased(old(Lists), cc)
      ensures nodes.Keys == old(nodes.Keys) && forall i :: i in nodes ==> nodes[i].client == old(nodes[i].client)
    {
      ErasedBeforeEnds(Lists, cc, cc.min.x);
      var x := cc.min.x;
      while x <= cc.max.x
        invariant cc.min.x <= x <= if cc.min.x <= cc.max.x then cc.max.x + 1 else cc.min.x
        invariant Linked() && Lists == ErasedBefore(old(Lists), cc, x)
        invariant nodes.Keys == old(nodes.Keys) && forall i :: i in nodes ==> nodes[i].client == old(nodes[i].client)
      {
        ErasedBeforeStep(old(Lists), cc, x);
        UnlinkColumn(cc, x);
        x := x + 1;
      }
      ErasedBeforeEnds(old(Lists), cc, x);
    }

    /** The inner loop of `RemoveClient`: the node of `cc` in each cell of column `x` is unlinked. */
    method UnlinkColumn(cc: ClientCells, x: int)
      requires Linked() && RegWf(cc, dimensions) && cc.min.x <= x <= cc.max.x
      requires forall y :: cc.min.y <= y <= cc.max.y ==> NodeAt(cc, x, y) in Lists[x][y]
      modifies this`nodes, this`Lists, cells
      ensures Linked() && Lists == old(Lists[x := Unheaded(Lists[x], cc, x, cc.max.y + 1)])
      ensures nodes.Keys == old(nodes.Keys) && forall i :: i in nodes ==> nodes[i].client == old(nodes[i].client)
    {
      UnheadedNone(Lists[x], cc, x);
      var y := cc.min.y;
      while y <= cc.max.y
        invariant cc.min.y <= y <= if cc.min.y <= cc.max.y then cc.max.y + 1 else cc.min.y
        invariant Linked() && Lists == old(Lists[x := Unheaded(Lists[x], cc, x, y)])
        invariant nodes.Keys == old(nodes.Keys) && forall i :: i in nodes ==> nodes[i].client == old(nodes[i].client)
      {
        UnheadedStep(old(Lists[x]), cc, x, y);
        Unlink(x, y, NodeAt(cc, x, y));
        y := y + 1;
      }
      UnheadedEnd(old(Lists[x]), cc, x, y);
    }

    /**
     * One step of `_Insert`: a fresh node for `client` becomes the head of cell `(x, y)`,
     * with the old head as its `next` and itself as the old head's `prev`.
     */
    method PushFront(x: int, y: int, client: Client) returns (id: NodeId)
      requires Linked() && InGrid(x, y)
      modifies this`nodes, this`nextNode, this`Lists, this`Where, cells
      ensures Linked()
      ensures id == old(nextNode) && nextNode == id + 1
      ensures Lists == old(Lists[x := Lists[x][y := [id] + Lists[x][y]]])
      ensures Where == old(Where)[id := CellIndex(x, y)]
      ensures id in nodes && nodes[id].client == client
      ensures nodes.Keys == old(nodes.Keys) + {id}
      ensures forall i :: i in old(nodes) ==> nodes[i].client == old(nodes[i].client)
    {
      id := nextNode;
      assert cells[x, y] == HeadOf(Lists[x][y]) by { LinkedAt(x, y); }
      ArrangedPush(nodes, Where, Lists, x, y, id, client);
      var head := cells[x, y];
      nodes := PushedFront(nodes, head, id, client);
      cells[x, y] := Some(id);
      nextNode := nextNode + 1;
      Lists := Lists[x := Lists[x][y := [id] + Lists[x][y]]];
      Where := Where[id := CellIndex(x, y)];

    }

    /**
     * One step of `RemoveClient`: the node `id` of cell `(x, y)` is bypassed by its
     * neighbours' links, and the cell's head moves on when it was the head.
     */
    method Unlink(x: int, y: int, id: NodeId)
      requires Linked() && InGrid(x, y) && id in Lists[x][y]
      modifies this`nodes, this`Lists, cells
      ensures Linked()
      ensures Lists == old(Lists[x := Lists[x][y := Erase(Lists[x][y], id)]])
      ensures nodes.Keys == old(nodes.Keys)
      ensures forall i :: i in nodes ==> nodes[i].client == old(nodes[i].client)
    {
      assert id in nodes by { LinkedAt(x, y); }
      ArrangedUnlink(nodes, Where, Lists, x, y, id);
      var node := nodes[id];
      nodes := BypassNext(nodes, node);
      nodes := BypassPrev(nodes, node);
      if node.prev.None? {
        cells[x, y] := node.next;
      }
      Lists := Lists[x := Lists[x][y := Erase(Lists[x][y], id)]];
    }
  }
}
