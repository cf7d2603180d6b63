/**
 `enumerateLabels` of src/index.ts. Vertices are grouped by x (runs 2 units
 wide) and text items by the x of their anchor (runs 10 units wide). The k-th
 text group (rank k) is labelled against the pool of the first k vertex
 groups, sorted by y: each item's label carries the y of the first pooled
 vertex above the item's anchor (`top`) and of the vertex just before it
 (`bottom`).
 */
module Labels {
  import opened Seqs
  import opened Geometry
  import opened ArraySort
  import opened Grouping

  /** A positioned text run; its transform is `[a, b, c, d, tx, ty]`, so `transform[4]`
      and `transform[5]` are its anchor point. */
  datatype TextItem = TextItem(str: string, transform: Mat2d)

  datatype Label = Label(name: string, rank: nat, top: real, bottom: real)

  const VertexGroupingThreshold: real := 2.0
  const TextItemGroupingThreshold: real := 10.0

  function VertexX(v: Vec2): real { v.x }
  function VertexY(v: Vec2): real { v.y }
  function AnchorX(t: TextItem): real { t.transform.tx }
  function AnchorY(t: TextItem): real { t.transform.ty }

  /** `Array.prototype.findIndex` with the test `y > ty`: the first index whose y is above
      `ty`, or -1 when there is none. */
  function FindIndex(pool: seq<Vec2>, ty: real): (r: int)
    ensures -1 <= r < |pool|
    ensures r == -1 <==> forall i :: 0 <= i < |pool| ==> pool[i].y <= ty
    ensures r >= 0 ==> ty < pool[r].y && forall i :: 0 <= i < r ==> pool[i].y <= ty
    decreases |pool|
  {
    if |pool| == 0 then -1
    else if pool[0].y > ty then 0
    else
      var r := FindIndex(pool[1..], ty);
      if r == -1 then -1 else r + 1
  }

  /** Some vertex of `vs` lies at or below `ty` and some lies above it. */
  predicate Brackets(vs: seq<Vec2>, ty: real)
  {
    (exists v :: v in vs && v.y <= ty) && (exists v :: v in vs && ty < v.y)
  }

  /** `top` is the smallest y of `vs` above `ty`; `bottom` is the largest y of `vs` at or below `ty`. */
  predicate IsBracket(vs: seq<Vec2>, ty: real, bottom: real, top: real)
  {
    && bottom <= ty < top
    && (exists v :: v in vs && v.y == top)
    && (exists v :: v in vs && v.y == bottom)
    && (forall v :: v in vs && ty < v.y ==> top <= v.y)
    && (forall v :: v in vs && v.y <= ty ==> v.y <= bottom)
  }

  /** Both bracketing notions depend only on which vertices are present, not on their order. */
  lemma BracketsPermutation(a: seq<Vec2>, b: seq<Vec2>, ty: real, bottom: real, top: real)
    requires multiset(a) == multiset(b)
    ensures Brackets(a, ty) <==> Brackets(b, ty)
    ensures IsBracket(a, ty, bottom, top) <==> IsBracket(b, ty, bottom, top)
  {
    assert forall v :: v in a <==> v in b by {
      forall v ensures v in a <==> v in b {
        assert v in a <==> v in multiset(a);
        assert v in b <==> v in multiset(b);
      }
    }
  }

  /** When the sorted pool brackets `ty`, the first vertex above `ty` is not the first vertex. */
  lemma TopIndexPositive(pool: seq<Vec2>, ty: real)
    requires SortedBy(pool, VertexY)
    requires Brackets(pool, ty)
    ensures FindIndex(pool, ty) >= 1
  {
    var lo :| lo in pool && lo.y <= ty;
    var hi :| hi in pool && ty < hi.y;
    var i :| 0 <= i < |pool| && pool[i] == lo;
    var h :| 0 <= h < |pool| && pool[h] == hi;
    assert VertexY(pool[0]) <= VertexY(pool[i]);
  }

  /** In a y-sorted pool, the vertex at `FindIndex` and the one before it bracket `ty`. */
  lemma FindIndexBrackets(pool: seq<Vec2>, ty: real)
    requires SortedBy(pool, VertexY)
    requires FindIndex(pool, ty) >= 1
    ensures var r := FindIndex(pool, ty); IsBracket(pool, ty, pool[r - 1].y, pool[r].y)
  {
    var r := FindIndex(pool, ty);
    assert pool[r - 1].y <= ty < pool[r].y;
    BracketAt(pool, ty, r);
  }

  /** In a y-sorted pool, two neighbours on either side of `ty` bracket it. */
  lemma BracketAt(pool: seq<Vec2>, ty: real, r: int)
    requires SortedBy(pool, VertexY)
    requires 1 <= r < |pool| && pool[r - 1].y <= ty < pool[r].y
    ensures IsBracket(pool, ty, pool[r - 1].y, pool[r].y)
  {
    forall i | 0 <= i < r ensures pool[i].y <= ty {
      assert VertexY(pool[i]) <= VertexY(pool[r - 1]);
    }
    forall i | r <= i < |pool| ensures ty < pool[i].y {
      assert VertexY(pool[r]) <= VertexY(pool[i]);
    }
    forall v | v in pool && ty < v.y ensures pool[r].y <= v.y {
      var i :| 0 <= i < |pool| && pool[i] == v;
      assert VertexY(pool[r]) <= VertexY(pool[i]);
    }
    forall v | v in pool && v.y <= ty ensures v.y <= pool[r - 1].y {
      var i :| 0 <= i < |pool| && pool[i] == v;
      assert VertexY(pool[i]) <= VertexY(pool[r - 1]);
    }
    assert pool[r] in pool && pool[r - 1] in pool;
  }

  /** The label of one text item against the y-sorted `pool`. */
  function LabelFor(pool: seq<Vec2>, item: TextItem, rank: nat): (l: Label)
    requires SortedBy(pool, VertexY)
    requires Brackets(pool, AnchorY(item))
    ensures l.name == item.str && l.rank == rank
    ensures IsBracket(pool, AnchorY(item), l.bottom, l.top)
  {
    var ty := AnchorY(item);
    TopIndexPositive(pool, ty);
    FindIndexBrackets(pool, ty);
    var topIndex := FindIndex(pool, ty);
    Label(item.str, rank, pool[topIndex].y, pool[topIndex - 1].y)
  }

  /** The vertex pool after `k` text groups: the first `k` vertex groups, each appended in
      turn and the whole re-sorted by y. */
  function Pool(vgs: seq<seq<Vec2>>, k: nat): (pool: seq<Vec2>)
    requires k <= |vgs|
    ensures SortedBy(pool, VertexY)
    ensures multiset(pool) == multiset(Flatten(vgs[..k]))
  {
    if k == 0 then []
    else
      PoolGrows(vgs, k, Pool(vgs, k - 1));
      SortByKey(Pool(vgs, k - 1) + vgs[k - 1], VertexY)
  }

  /** Appending the k-th vertex group to a pool of the first k - 1 gives the first k. */
  lemma PoolGrows(vgs: seq<seq<Vec2>>, k: nat, prev: seq<Vec2>)
    requires 0 < k <= |vgs|
    requires multiset(prev) == multiset(Flatten(vgs[..k - 1]))
    ensures multiset(prev + vgs[k - 1]) == multiset(Flatten(vgs[..k]))
  {
    FlattenPrefixStep(vgs, k - 1);
  }

  function VertexGroups(vertices: seq<Vec2>): seq<seq<Vec2>>
  {
    GroupByThreshold(vertices, VertexX, VertexGroupingThreshold)
  }

  function TextGroups(items: seq<TextItem>): seq<seq<TextItem>>
  {
    GroupByThreshold(items, AnchorX, TextItemGroupingThreshold)
  }

  /** Every text group has its vertex group, and every item of the k-th text group has
      pooled vertices both at or below and above its anchor. Outside this the source
      reads past the vertex groups or at index -1, and fails. */
  predicate LabelsDefined(vertices: seq<Vec2>, items: seq<TextItem>)
  {
    var vgs := VertexGroups(vertices);
    var tgs := TextGroups(items);
    && |tgs| <= |vgs|
    && forall k, j :: 0 <= k < |tgs| && 0 <= j < |tgs[k]| ==>
         Brackets(Flatten(vgs[..k + 1]), AnchorY(tgs[k][j]))
  }

  /** The labels of one text group. */
  function GroupLabels(pool: seq<Vec2>, group: seq<TextItem>, rank: nat): (ls: seq<Label>)
    requires SortedBy(pool, VertexY)
    requires forall j :: 0 <= j < |group| ==> Brackets(pool, AnchorY(group[j]))
    ensures |ls| == |group|
    ensures forall j :: 0 <= j < |group| ==> ls[j] == LabelFor(pool, group[j], rank)
  {
    seq(|group|, j requires 0 <= j < |group| => LabelFor(pool, group[j], rank))
  }

  /** The labels of the k-th text group (0-based), at rank k + 1 against the pool of the
      first k + 1 vertex groups. */
  function BlockFor(vgs: seq<seq<Vec2>>, group: seq<TextItem>, k: nat): (ls: seq<Label>)
    requires k < |vgs|
    requires forall j :: 0 <= j < |group| ==> Brackets(Flatten(vgs[..k + 1]), AnchorY(group[j]))
    ensures |ls| == |group|
    ensures forall j :: 0 <= j < |group| ==>
      && ls[j].name == group[j].str
      && ls[j].rank == k + 1
      && IsBracket(Pool(vgs, k + 1), AnchorY(group[j]), ls[j].bottom, ls[j].top)
  {
    var pool := Pool(vgs, k + 1);
    assert forall j :: 0 <= j < |group| ==> Brackets(pool, AnchorY(group[j])) by {
      forall j | 0 <= j < |group| ensures Brackets(pool, AnchorY(group[j])) {
        BracketsPermutation(pool, Flatten(vgs[..k + 1]), AnchorY(group[j]), 0.0, 0.0);
      }
    }
    GroupLabels(pool, group, k + 1)
  }

  /** The labels of every text group, group by group. */
  function LabelBlocks(vgs: seq<seq<Vec2>>, tgs: seq<seq<TextItem>>): (blocks: seq<seq<Label>>)
    requires |tgs| <= |vgs|
    requires forall k, j :: 0 <= k < |tgs| && 0 <= j < |tgs[k]| ==>
      Brackets(Flatten(vgs[..k + 1]), AnchorY(tgs[k][j]))
    ensures |blocks| == |tgs|
    ensures forall k :: 0 <= k < |tgs| ==> blocks[k] == BlockFor(vgs, tgs[k], k)
  {
    seq(|tgs|, k requires 0 <= k < |tgs| => BlockFor(vgs, tgs[k], k))
  }

  /** `enumerateLabels(vertices, items)`: one label per text item. */
  function EnumerateLabels(vertices: seq<Vec2>, items: seq<TextItem>): (labels: seq<Label>)
    requires LabelsDefined(vertices, items)
    ensures |labels| == |items|
  {
    BlockShape(VertexGroups(vertices), TextGroups(items));
    SameOffsets(LabelBlocks(VertexGroups(vertices), TextGroups(items)), TextGroups(items));
    Flatten(LabelBlocks(VertexGroups(vertices), TextGroups(items)))
  }

  /** The labels and the text groups have the same block shape. */
  lemma SameOffsets(blocks: seq<seq<Label>>, tgs: seq<seq<TextItem>>)
    requires |blocks| == |tgs| && forall k :: 0 <= k < |tgs| ==> |blocks[k]| == |tgs[k]|
    ensures |Flatten(blocks)| == |Flatten(tgs)|
    ensures forall k :: 0 <= k <= |tgs| ==> Offset(blocks, k) == Offset(tgs, k)
  {
    FlattenSameShape(blocks, tgs);
    forall k | 0 <= k <= |tgs| ensures Offset(blocks, k) == Offset(tgs, k) {
      FlattenSameShape(blocks[..k], tgs[..k]);
    }
  }

  /** One label per text item, named after the items in the order of their anchor x. */
  lemma LabelsFollowItems(vertices: seq<Vec2>, items: seq<TextItem>)
    requires LabelsDefined(vertices, items)
    ensures var labels := EnumerateLabels(vertices, items);
      var sorted := SortByKey(items, AnchorX);
      && |labels| == |items|
      && forall i :: 0 <= i < |labels| ==> labels[i].name == sorted[i].str
  {
    BlocksFollowItems(VertexGroups(vertices), TextGroups(items));
  }

  /** `LabelsFollowItems` over the groups themselves. */
  lemma BlocksFollowItems(vgs: seq<seq<Vec2>>, tgs: seq<seq<TextItem>>)
    requires |tgs| <= |vgs|
    requires forall k, j :: 0 <= k < |tgs| && 0 <= j < |tgs[k]| ==>
      Brackets(Flatten(vgs[..k + 1]), AnchorY(tgs[k][j]))
    ensures var labels := Flatten(LabelBlocks(vgs, tgs));
      && |labels| == |Flatten(tgs)|
      && forall i :: 0 <= i < |labels| ==> labels[i].name == Flatten(tgs)[i].str
  {
    var blocks := LabelBlocks(vgs, tgs);
    var labels := Flatten(blocks);
    BlockShape(vgs, tgs);
    SameOffsets(blocks, tgs);
    forall i | 0 <= i < |labels| ensures labels[i].name == Flatten(tgs)[i].str {
      var k, j := Locate(tgs, i);
      FlattenIndex(blocks, k, j);
      FlattenIndex(tgs, k, j);
      assert blocks[k] == BlockFor(vgs, tgs[k], k);
    }
  }

  /** `LabelsBracketItems` over the groups themselves. */
  lemma BlocksBracket(vgs: seq<seq<Vec2>>, tgs: seq<seq<TextItem>>, k: nat, j: nat)
    requires |tgs| <= |vgs|
    requires forall k, j :: 0 <= k < |tgs| && 0 <= j < |tgs[k]| ==>
      Brackets(Flatten(vgs[..k + 1]), AnchorY(tgs[k][j]))
    requires k < |tgs| && j < |tgs[k]|
    ensures var labels := Flatten(LabelBlocks(vgs, tgs));
      var i := Offset(tgs, k) + j;
      && i < |labels|
      && labels[i].rank == k + 1
      && IsBracket(Flatten(vgs[..k + 1]), AnchorY(tgs[k][j]), labels[i].bottom, labels[i].top)
  {
    var blocks := LabelBlocks(vgs, tgs);
    BlockShape(vgs, tgs);
    FlattenIndexShape(blocks, tgs, k, j);
    assert blocks[k] == BlockFor(vgs, tgs[k], k);
    BlockBracket(vgs, tgs[k], k, j, Flatten(blocks)[Offset(tgs, k) + j]);
  }

  /** The label of item `j` of the k-th text group has rank k + 1 and brackets the item
      among the first k + 1 vertex groups. */
  lemma BlockBracket(vgs: seq<seq<Vec2>>, group: seq<TextItem>, k: nat, j: nat, l: Label)
    requires k < |vgs|
    requires forall j :: 0 <= j < |group| ==> Brackets(Flatten(vgs[..k + 1]), AnchorY(group[j]))
    requires j < |group| && l == BlockFor(vgs, group, k)[j]
    ensures l.rank == k + 1
    ensures IsBracket(Flatten(vgs[..k + 1]), AnchorY(group[j]), l.bottom, l.top)
  {
    BracketsPermutation(Pool(vgs, k + 1), Flatten(vgs[..k + 1]), AnchorY(group[j]), l.bottom, l.top);
  }

  /** Each block has one label per item of its text group. */
  lemma BlockShape(vgs: seq<seq<Vec2>>, tgs: seq<seq<TextItem>>)
    requires |tgs| <= |vgs|
    requires forall k, j :: 0 <= k < |tgs| && 0 <= j < |tgs[k]| ==>
      Brackets(Flatten(vgs[..k + 1]), AnchorY(tgs[k][j]))
    ensures var blocks := LabelBlocks(vgs, tgs);
      forall k :: 0 <= k < |tgs| ==> |blocks[k]| == |tgs[k]|
  {
    var blocks := LabelBlocks(vgs, tgs);
    forall k | 0 <= k < |tgs| ensures |blocks[k]| == |tgs[k]| {
      assert blocks[k] == BlockFor(vgs, tgs[k], k);
    }
  }

  /** The item in text group k (0-based) gets rank k + 1, and its `bottom`/`top` are the
      largest y at or below and the smallest y above its anchor among the vertices of
      the first k + 1 vertex groups. */
  lemma LabelsBracketItems(vertices: seq<Vec2>, items: seq<TextItem>, k: nat, j: nat)
    requires LabelsDefined(vertices, items)
    requires k < |TextGroups(items)| && j < |TextGroups(items)[k]|
    ensures var labels := EnumerateLabels(vertices, items);
      var tgs := TextGroups(items);
      var i := Offset(tgs, k) + j;
      && i < |labels|
      && labels[i].rank == k + 1
      && IsBracket(Flatten(VertexGroups(vertices)[..k + 1]), AnchorY(tgs[k][j]), labels[i].bottom, labels[i].top)
  {
    BlocksBracket(VertexGroups(vertices), TextGroups(items), k, j);
  }
}
