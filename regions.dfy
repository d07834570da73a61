/**
 * Brain regions: the nested records of the input ontology, the flat records
 * the index keeps, and the order in which the work-list of `buildIndex`
 * visits a tree.
 */
module Regions {

  /** One record of the nested input: a region and its sub-regions in input order. */
  datatype Region = Region(id: int, name: string, acronym: string, children: seq<Region>)

  /**
   * A region as the index keeps it: the nested `children` replaced by the
   * ids of the children (`children_structure_id`) and a leaf flag.
   * Names and acronyms keep their original case.
   */
  datatype IndexedRegion = IndexedRegion(id: int, name: string, acronym: string, childIds: seq<int>, isLeaf: bool)

  /**
   * The ids of `children`, in input order. These are input nodes; the same
   * projection over indexed records is `IndexEntries.IdsOf`.
   */
  function ChildIds(children: seq<Region>): (ids: seq<int>)
    ensures |ids| == |children|
    ensures forall i :: 0 <= i < |children| ==> ids[i] == children[i].id
  {
    seq(|children|, i requires 0 <= i < |children| => children[i].id)
  }

  /** The flat record of a visited node. */
  function Record(n: Region): (r: IndexedRegion)
    ensures r.id == n.id && r.name == n.name && r.acronym == n.acronym
    ensures r.childIds == ChildIds(n.children)
    ensures r.isLeaf <==> r.childIds == []
  {
    IndexedRegion(n.id, n.name, n.acronym, ChildIds(n.children), |n.children| == 0)
  }

  function Records(ns: seq<Region>): (rs: seq<IndexedRegion>)
    ensures |rs| == |ns|
    ensures forall i :: 0 <= i < |ns| ==> rs[i] == Record(ns[i])
  {
    seq(|ns|, i requires 0 <= i < |ns| => Record(ns[i]))
  }

  /**
   * The nodes of `t` in the order a LIFO work-list started with `[t]` pops
   * them: a node, then the sub-trees of its children, last child first.
   */
  function Flatten(t: Region): seq<Region> {
    [t] + FlattenStack(t.children)
  }

  /** The nodes popped from a work-list holding `stack` (its top is the last element) until it is empty. */
  function FlattenStack(stack: seq<Region>): seq<Region> {
    if stack == [] then []
    else Flatten(stack[|stack| - 1]) + FlattenStack(stack[..|stack| - 1])
  }

  /** The reference walk: a recursive pre-order with children in input order. */
  function Preorder(t: Region): seq<Region> {
    [t] + PreorderForest(t.children)
  }

  function PreorderForest(ts: seq<Region>): seq<Region> {
    if ts == [] then [] else Preorder(ts[0]) + PreorderForest(ts[1..])
  }

  lemma AppendAssociative<T>(a: seq<T>, b: seq<T>, c: seq<T>)
    ensures (a + b) + c == a + (b + c)
  {
  }

  /** Pushing `more` on top of `stack` means popping everything of `more` first. */
  lemma {:induction false} FlattenStackAppend(stack: seq<Region>, more: seq<Region>)
    ensures FlattenStack(stack + more) == FlattenStack(more) + FlattenStack(stack)
    decreases |more|
  {
    if more == [] {
      assert stack + more == stack;
    } else {
      var all := stack + more;
      var top := more[|more| - 1];
      var rest := more[..|more| - 1];
      assert all[|all| - 1] == top;
      assert all[..|all| - 1] == stack + rest;
      assert FlattenStack(all) == Flatten(top) + FlattenStack(stack + rest);
      assert FlattenStack(more) == Flatten(top) + FlattenStack(rest);
      FlattenStackAppend(stack, rest);
      AppendAssociative(Flatten(top), FlattenStack(rest), FlattenStack(stack));
    }
  }

  /** A list holding `prefix` and then the records of `ns` grows by the record of the next node. */
  lemma RecordsExtend(prefix: seq<IndexedRegion>, ns: seq<Region>, n: Region, list: seq<IndexedRegion>)
    requires list == prefix + Records(ns)
    ensures list + [Record(n)] == prefix + Records(ns + [n])
  {
    assert Records(ns + [n]) == Records(ns) + [Record(n)];
  }

  /**
   * One pop of the work-list: the popped node is the next one of the walk,
   * the walk goes on with its children pushed, and less of it is left.
   */
  lemma PopStep(visited: seq<Region>, stack: seq<Region>, one: Region)
    requires stack != []
    requires visited + FlattenStack(stack) == Flatten(one)
    ensures var node := stack[|stack| - 1];
      && (visited + [node]) + FlattenStack(stack[..|stack| - 1] + node.children) == Flatten(one)
      && |FlattenStack(stack[..|stack| - 1] + node.children)| < |FlattenStack(stack)|
  {
    var node := stack[|stack| - 1];
    var below := stack[..|stack| - 1];
    var inner := FlattenStack(node.children);
    var rest := FlattenStack(below);
    FlattenStackAppend(below, node.children);
    assert FlattenStack(stack) == ([node] + inner) + rest;
    AppendAssociative(visited, [node], inner + rest);
    AppendAssociative([node], inner, rest);
  }

  /** The work-list walk visits the first node of the tree first. */
  lemma FlattenStartsAtRoot(t: Region)
    ensures |Flatten(t)| >= 1 && Flatten(t)[0] == t
  {
  }

  lemma {:induction false} FlattenStackVisitsForest(ts: seq<Region>)
    ensures multiset(FlattenStack(ts)) == multiset(PreorderForest(ts))
    decreases ts, 1
  {
    if ts != [] {
      assert ts == [ts[0]] + ts[1..];
      FlattenStackAppend([ts[0]], ts[1..]);
      assert [ts[0]][..0] == [];
      assert FlattenStack([ts[0]]) == Flatten(ts[0]);
      FlattenVisitsTree(ts[0]);
      FlattenStackVisitsForest(ts[1..]);
    }
  }

  /**
   * Every node of the tree is visited exactly once: the work-list order is a
   * permutation of the recursive pre-order.
   */
  lemma {:induction false} FlattenVisitsTree(t: Region)
    ensures multiset(Flatten(t)) == multiset(Preorder(t))
    ensures |Flatten(t)| == |Preorder(t)|
    decreases t, 0
  {
    FlattenStackVisitsForest(t.children);
    assert |multiset(Flatten(t))| == |multiset(Preorder(t))|;
  }
}
