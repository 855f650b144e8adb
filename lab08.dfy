/** The lab 8 `Tree` class and the exercises that change a tree in place. Every tree
    object carries, as ghost state, the set of objects it owns (`repr`) and the abstract
    value it stands for (`value`, a `TreeSpec.TreeV`). Each method is proved to leave the
    tree valid and to turn its value into what the matching `TreeSpec` function computes. */
module Lab08 {
  import TreeSpec

  class Tree {
    var lbl: int
    var branches: seq<Tree>
    ghost var repr: set<object>
    ghost var value: TreeSpec.TreeV

    /** A well-formed tree whose ghost value describes its current labels and branches. */
    ghost predicate Valid()
      reads this, repr
      decreases repr, 1
    {
      this in repr && Forest(this, branches, repr) && value == TreeSpec.Node(lbl, Values(branches))
    }

    /** `Tree(label, branches)`: the branch list is copied. */
    constructor (lbl: int, branches: seq<Tree>)
      requires forall i :: 0 <= i < |branches| ==> branches[i].Valid()
      requires forall i, j :: 0 <= i < j < |branches| ==> branches[i].repr !! branches[j].repr
      ensures Valid()
      ensures this.lbl == lbl && this.branches == branches
      ensures value == TreeSpec.Node(lbl, Values(branches))
    {
      this.lbl := lbl;
      this.branches := branches;
      repr := {this} + ReprOf(branches);
      value := TreeSpec.Node(lbl, Values(branches));
      new;
      ReprOfCovers(branches);
    }

    /** `is_leaf`: the tree has no branches. */
    predicate IsLeaf()
      requires Valid()
      reads this, repr
      ensures IsLeaf() <==> TreeSpec.IsLeaf(value)
    {
      branches == []
    }
  }

  /** The trees bs are valid, owned by repr, disjoint from each other and free of root: below
      root the structure is a tree, with no subtree reachable twice. */
  ghost predicate Forest(root: object, bs: seq<Tree>, repr: set<object>)
    reads repr - {root}
    decreases repr, 0
  {
    && root in repr
    && (forall i :: 0 <= i < |bs| ==>
          && bs[i] in repr && bs[i] != root && bs[i].repr <= repr && root !in bs[i].repr
          && bs[i] in bs[i].repr)
    && (forall i :: 0 <= i < |bs| ==> bs[i].Valid())
    && (forall i, j :: 0 <= i < j < |bs| ==> bs[i].repr !! bs[j].repr)
  }

  /** The abstract values of a list of trees. */
  ghost function Values(ts: seq<Tree>): seq<TreeSpec.TreeV>
    reads set t | t in ts
  {
    seq(|ts|, i requires 0 <= i < |ts| reads set t | t in ts => ts[i].value)
  }

  /** All the objects owned by a list of trees. */
  ghost function ReprOf(ts: seq<Tree>): set<object>
    reads set t | t in ts
  {
    if ts == [] then {} else ReprOf(ts[..|ts| - 1]) + ts[|ts| - 1].repr
  }

  lemma ReprOfCovers(ts: seq<Tree>)
    ensures forall i :: 0 <= i < |ts| ==> ts[i].repr <= ReprOf(ts)
  {
    if ts != [] {
      ReprOfCovers(ts[..|ts| - 1]);
    }
  }

  /** `cumulative_mul(t)`: the new value of t is `TreeSpec.CumulativeMul` of the old one,
      i.e. every label becomes the product of the original labels of its subtree. */
  method CumulativeMul(t: Tree)
    requires t.Valid()
    modifies t.repr
    ensures t.Valid() && t.repr == old(t.repr)
    ensures t.value == TreeSpec.CumulativeMul(old(t.value))
    decreases t.repr, 1
  {
    if t.IsLeaf() {
      return;
    }
    ghost var v := t.value;
    ghost var bs := TreeSpec.MulEach(v.branches);
    CumulativeMulBranches(t);
    assert Values(t.branches) == bs;
    var product := ProductOfBranchLabels(t);
    t.lbl := product * t.lbl;
    t.value := TreeSpec.Node(t.lbl, Values(t.branches));
  }

  /** The first loop of `cumulative_mul`: process every branch in place. */
  method CumulativeMulBranches(t: Tree)
    requires t.Valid()
    modifies t.repr - {t}
    ensures Forest(t, t.branches, t.repr) && t.repr == old(t.repr)
    ensures |t.branches| == |old(t.value).branches|
    ensures forall j :: 0 <= j < |t.branches| ==>
      t.branches[j].value == TreeSpec.CumulativeMul(old(t.value).branches[j])
    decreases t.repr, 0
  {
    ghost var vs := t.value.branches;
    for i := 0 to |t.branches|
      invariant Forest(t, t.branches, t.repr) && t.repr == old(t.repr)
      invariant forall j :: 0 <= j < |t.branches| ==> t.branches[j].repr == old(t.branches[j].repr)
      invariant forall j :: 0 <= j < i ==> t.branches[j].value == TreeSpec.CumulativeMul(vs[j])
      invariant forall j :: i <= j < |t.branches| ==> t.branches[j].value == vs[j]
    {
      CumulativeMulOne(t, i);
    }
  }

  /** One round of that loop: `cumulative_mul` on branch i; the other branches are untouched. */
  method CumulativeMulOne(t: Tree, i: nat)
    requires Forest(t, t.branches, t.repr) && i < |t.branches|
    modifies t.branches[i].repr
    ensures Forest(t, t.branches, t.repr)
    ensures forall j :: 0 <= j < |t.branches| ==> t.branches[j].repr == old(t.branches[j].repr)
    ensures forall j :: 0 <= j < |t.branches| && j != i ==> t.branches[j].value == old(t.branches[j].value)
    ensures t.branches[i].value == TreeSpec.CumulativeMul(old(t.branches[i].value))
    decreases t.branches[i].repr, 2
  {
    var b := t.branches[i];
    CumulativeMul(b);
    assert forall j :: 0 <= j < |t.branches| && j != i ==> t.branches[j].repr !! b.repr;
  }

  /** The second loop of `cumulative_mul`: the product of the branch labels, taken left to
      right. */
  method ProductOfBranchLabels(t: Tree) returns (product: int)
    requires Forest(t, t.branches, t.repr)
    ensures product == TreeSpec.ProductOfLabels(Values(t.branches))
  {
    product := 1;
    for i := 0 to |t.branches|
      invariant product == TreeSpec.ProductOfLabels(Values(t.branches)[..i])
    {
      assert Values(t.branches)[..i + 1][..i] == Values(t.branches)[..i];
      product := product * t.branches[i].lbl;
    }
    assert Values(t.branches)[..|t.branches|] == Values(t.branches);
  }

  /** The label of every branch is the label of its value. */
  lemma BranchLabels(t: Tree)
    requires t.Valid()
    ensures |t.branches| == |t.value.branches|
    ensures forall i :: 0 <= i < |t.branches| ==> t.branches[i].lbl == t.value.branches[i].lbl
  {
    forall i | 0 <= i < |t.branches|
      ensures t.branches[i].lbl == t.value.branches[i].lbl
    {
      assert t.branches[i].Valid();
    }
  }

  /** Python's `max(t.branches, key=lambda x: x.label)`: the position of the first branch
      with the largest label. */
  method FirstLargest(t: Tree) returns (k: nat)
    requires t.Valid() && |t.branches| > 0
    ensures k == TreeSpec.FirstMaxIndex(TreeSpec.RootLabels(t.value.branches))
  {
    ghost var xs := TreeSpec.RootLabels(t.value.branches);
    BranchLabels(t);
    assert xs[..1] == [xs[0]];
    k := 0;
    for i := 1 to |t.branches|
      invariant k == TreeSpec.FirstMaxIndex(xs[..i])
    {
      assert xs[..i + 1][..i] == xs[..i];
      assert t.branches[i].lbl == xs[i] && t.branches[k].lbl == xs[k];
      if t.branches[i].lbl > t.branches[k].lbl {
        k := i;
      }
    }
    assert xs[..|t.branches|] == xs;
  }

  /** Dropping one tree keeps a forest a forest. */
  lemma ForestRemove(root: object, bs: seq<Tree>, repr: set<object>, k: nat)
    requires k < |bs| && Forest(root, bs, repr)
    ensures Forest(root, bs[..k] + bs[k + 1..], repr)
  {
    var r := bs[..k] + bs[k + 1..];
    assert forall i :: 0 <= i < |r| ==> r[i] == bs[if i < k then i else i + 1];
  }

  lemma ValuesRemove(bs: seq<Tree>, k: nat)
    requires k < |bs|
    ensures Values(bs[..k] + bs[k + 1..]) == TreeSpec.RemoveAt(Values(bs), k)
  {
  }

  /** `prune_small(t, n)`: the new value of t is `TreeSpec.PruneSmall` of the old one, so
      every node keeps its n branches with the smallest labels, in their original order. */
  method PruneSmall(t: Tree, n: nat)
    requires t.Valid()
    modifies t.repr
    ensures t.Valid() && t.repr == old(t.repr)
    ensures t.value == TreeSpec.PruneSmall(old(t.value), n)
    decreases t.repr, 1
  {
    ghost var v := t.value;
    DropLargest(t, n);
    ghost var kept := t.value.branches;
    PruneSmallBranches(t, n);
    assert Values(t.branches) == TreeSpec.PruneEach(v, kept, n);
    t.value := TreeSpec.Node(t.lbl, Values(t.branches));
  }

  /** The `while` loop of `prune_small`: remove the first branch with the largest label
      until at most n branches remain. */
  method DropLargest(t: Tree, n: nat)
    requires t.Valid()
    modifies t
    ensures t.Valid() && t.repr == old(t.repr)
    ensures t.value == TreeSpec.Node(old(t.value).lbl, TreeSpec.PruneBranches(old(t.value).branches, n))
  {
    ghost var v := t.value;
    while |t.branches| > n
      invariant t.Valid() && t.repr == old(t.repr) && t.value.lbl == v.lbl
      invariant TreeSpec.PruneBranches(t.value.branches, n) == TreeSpec.PruneBranches(v.branches, n)
      decreases |t.branches|
    {
      RemoveLargest(t);
    }
  }

  /** One round of that loop: `largest = max(...)` and `t.branches.remove(largest)`. The
      branches are distinct objects, so `remove` takes out exactly the one `max` found. */
  method RemoveLargest(t: Tree)
    requires t.Valid() && |t.branches| > 0
    modifies t
    ensures t.Valid() && t.repr == old(t.repr) && t.value.lbl == old(t.value).lbl
    ensures t.value.branches
         == TreeSpec.RemoveAt(old(t.value).branches, TreeSpec.FirstMaxIndex(TreeSpec.RootLabels(old(t.value).branches)))
  {
    var k := FirstLargest(t);
    var rest := t.branches[..k] + t.branches[k + 1..];
    ForestRemove(t, t.branches, t.repr, k);
    ValuesRemove(t.branches, k);
    t.branches := rest;
    t.value := TreeSpec.Node(t.lbl, Values(rest));
  }

  /** The `for` loop of `prune_small`: prune every remaining branch in place. */
  method PruneSmallBranches(t: Tree, n: nat)
    requires t.Valid()
    modifies t.repr - {t}
    ensures Forest(t, t.branches, t.repr) && t.repr == old(t.repr)
    ensures |t.branches| == |old(t.value).branches|
    ensures forall j :: 0 <= j < |t.branches| ==>
      t.branches[j].value == TreeSpec.PruneSmall(old(t.value).branches[j], n)
    decreases t.repr, 0
  {
    ghost var vs := t.value.branches;
    for i := 0 to |t.branches|
      invariant Forest(t, t.branches, t.repr) && t.repr == old(t.repr)
      invariant forall j :: 0 <= j < |t.branches| ==> t.branches[j].repr == old(t.branches[j].repr)
      invariant forall j :: 0 <= j < i ==> t.branches[j].value == TreeSpec.PruneSmall(vs[j], n)
      invariant forall j :: i <= j < |t.branches| ==> t.branches[j].value == vs[j]
    {
      PruneSmallOne(t, i, n);
    }
  }

  /** One round of that loop: `prune_small` on branch i; the other branches are untouched. */
  method PruneSmallOne(t: Tree, i: nat, n: nat)
    requires Forest(t, t.branches, t.repr) && i < |t.branches|
    modifies t.branches[i].repr
    ensures Forest(t, t.branches, t.repr)
    ensures forall j :: 0 <= j < |t.branches| ==> t.branches[j].repr == old(t.branches[j].repr)
    ensures forall j :: 0 <= j < |t.branches| && j != i ==> t.branches[j].value == old(t.branches[j].value)
    ensures t.branches[i].value == TreeSpec.PruneSmall(old(t.branches[i].value), n)
    decreases t.branches[i].repr, 2
  {
    var b := t.branches[i];
    PruneSmall(b, n);
    assert forall j :: 0 <= j < |t.branches| && j != i ==> t.branches[j].repr !! b.repr;
  }

  /** A valid tree owned by repr, away from root, forms a one-tree forest below root, and so
      do its branches. */
  lemma ForestOfSubtree(b: Tree, root: object, repr: set<object>)
    requires b.Valid() && b.repr <= repr && root !in b.repr && root in repr
    ensures Forest(root, [b], repr)
    ensures Forest(root, b.branches, repr)
    ensures forall k :: 0 <= k < |b.branches| ==> b.branches[k].repr <= b.repr
  {
  }

  lemma ForestAppend(root: object, a: seq<Tree>, c: seq<Tree>, repr: set<object>)
    requires Forest(root, a, repr) && Forest(root, c, repr)
    requires forall m, j :: 0 <= m < |a| && 0 <= j < |c| ==> a[m].repr !! c[j].repr
    ensures Forest(root, a + c, repr)
  {
    var r := a + c;
    assert forall i :: 0 <= i < |r| ==> r[i] == if i < |a| then a[i] else c[i - |a|];
  }

  lemma ValuesAppend(a: seq<Tree>, c: seq<Tree>)
    ensures Values(a + c) == Values(a) + Values(c)
  {
  }

  /** `delete(t, x)`: the new value of t is `TreeSpec.Delete` of the old one. Each branch is
      processed first; one labelled x is replaced by its own branches, in place. */
  method Delete(t: Tree, x: int)
    requires t.Valid()
    modifies t.repr
    ensures t.Valid() && t.repr == old(t.repr)
    ensures t.value == TreeSpec.Delete(old(t.value), x)
    decreases t.repr, 1
  {
    ghost var v := t.value;
    var newBranches := DeleteBranches(t, x);
    t.branches := newBranches;
    t.value := TreeSpec.Node(t.lbl, Values(newBranches));
  }

  /** The loop of `delete`: the list `new_branches` it builds. */
  method DeleteBranches(t: Tree, x: int) returns (newBranches: seq<Tree>)
    requires t.Valid()
    modifies t.repr - {t}
    ensures Forest(t, newBranches, t.repr) && t.repr == old(t.repr)
    ensures Values(newBranches) == TreeSpec.Splice(TreeSpec.DeleteEach(old(t.value).branches, x), x)
    decreases t.repr, 0
  {
    ghost var vs := t.value.branches;
    ghost var ds: seq<TreeSpec.TreeV> := [];
    newBranches := [];
    for i := 0 to |t.branches|
      invariant Forest(t, t.branches, t.repr) && t.repr == old(t.repr)
      invariant forall j :: 0 <= j < |t.branches| ==> t.branches[j].repr == old(t.branches[j].repr)
      invariant forall j :: i <= j < |t.branches| ==> t.branches[j].value == vs[j]
      invariant |ds| == i && forall j :: 0 <= j < i ==> ds[j] == TreeSpec.Delete(vs[j], x)
      invariant Forest(t, newBranches, t.repr)
      invariant forall m, j :: 0 <= m < |newBranches| && i <= j < |t.branches| ==>
                  newBranches[m].repr !! t.branches[j].repr
      invariant Values(newBranches) == TreeSpec.Splice(ds, x)
    {
      ghost var d := TreeSpec.Delete(vs[i], x);
      newBranches := DeleteOne(t, i, x, newBranches);
      TreeSpec.SpliceSnoc(ds, d, x);
      ds := ds + [d];
    }
    assert ds == TreeSpec.DeleteEach(vs, x);
  }

  /** One round of that loop: `delete(b, x)` on branch i, then either `extend` the new list
      with the branches of b (when b is labelled x) or `append` b itself. */
  method DeleteOne(t: Tree, i: nat, x: int, newBranches: seq<Tree>) returns (nb: seq<Tree>)
    requires Forest(t, t.branches, t.repr) && i < |t.branches|
    requires Forest(t, newBranches, t.repr)
    requires forall m, j :: 0 <= m < |newBranches| && i <= j < |t.branches| ==>
               newBranches[m].repr !! t.branches[j].repr
    modifies t.branches[i].repr
    ensures Forest(t, t.branches, t.repr)
    ensures forall j :: 0 <= j < |t.branches| ==> t.branches[j].repr == old(t.branches[j].repr)
    ensures forall j :: 0 <= j < |t.branches| && j != i ==> t.branches[j].value == old(t.branches[j].value)
    ensures Forest(t, nb, t.repr)
    ensures forall m, j :: 0 <= m < |nb| && i < j < |t.branches| ==> nb[m].repr !! t.branches[j].repr
    ensures var d := TreeSpec.Delete(old(t.branches[i].value), x);
            Values(nb) == Values(newBranches) + (if d.lbl == x then d.branches else [d])
    decreases t.branches[i].repr, 3
  {
    ghost var br := t.branches[i].repr;
    assert forall m :: 0 <= m < |newBranches| ==> newBranches[m] !in br;
    DeleteAt(t, i, x);
    var b := t.branches[i];
    assert forall m :: 0 <= m < |newBranches| ==> newBranches[m].repr !! b.repr;
    ForestOfSubtree(b, t, t.repr);
    var piece := if b.lbl == x then b.branches else [b];
    ForestAppend(t, newBranches, piece, t.repr);
    ValuesAppend(newBranches, piece);
    nb := newBranches + piece;
  }

  /** `delete(b, x)` on branch i; the other branches are untouched. */
  method DeleteAt(t: Tree, i: nat, x: int)
    requires Forest(t, t.branches, t.repr) && i < |t.branches|
    modifies t.branches[i].repr
    ensures Forest(t, t.branches, t.repr)
    ensures forall j :: 0 <= j < |t.branches| ==> t.branches[j].repr == old(t.branches[j].repr)
    ensures forall j :: 0 <= j < |t.branches| && j != i ==> t.branches[j].value == old(t.branches[j].value)
    ensures t.branches[i].value == TreeSpec.Delete(old(t.branches[i].value), x)
    decreases t.branches[i].repr, 2
  {
    var b := t.branches[i];
    Delete(b, x);
    assert forall j :: 0 <= j < |t.branches| && j != i ==> t.branches[j].repr !! b.repr;
  }

  /** `max_path_sum(t)`: the largest sum of labels along a path from the root down to any
      node (see `TreeSpec.MaxPathSumIsPathSum` and `TreeSpec.PathSumAtMostMax`). */
  method MaxPathSum(t: Tree) returns (r: int)
    requires t.Valid()
    ensures r == TreeSpec.MaxPathSum(t.value)
    decreases t.repr
  {
    if t.IsLeaf() {
      return t.lbl;
    }
    var maxSum := 0;
    ghost var vs := t.value.branches;
    for i := 0 to |t.branches|
      invariant maxSum == TreeSpec.BestBranch(vs[..i])
    {
      var b := t.branches[i];
      assert b.Valid() && b.repr < t.repr;
      var s := MaxPathSum(b);
      assert vs[..i + 1][..i] == vs[..i];
      maxSum := if s >= maxSum then s else maxSum;
    }
    assert vs[..|t.branches|] == vs;
    return t.lbl + maxSum;
  }

  /** `t.indented()`: one line per node in preorder, each indented by two spaces per level
      (see `TreeSpec.IndentedIsOutline`). */
  method Indented(t: Tree) returns (lines: seq<string>)
    requires t.Valid()
    ensures lines == TreeSpec.Indented(t.value)
    decreases t.repr
  {
    ghost var vs := t.value.branches;
    var acc: seq<string> := [];
    for i := 0 to |t.branches|
      invariant acc == TreeSpec.BranchLines(vs[..i])
    {
      var b := t.branches[i];
      assert b.Valid() && b.repr < t.repr;
      var sub := Indented(b);
      ghost var before := acc;
      for j := 0 to |sub|
        invariant acc == before + TreeSpec.Indent(sub[..j])
      {
        assert sub[..j + 1] == sub[..j] + [sub[j]];
        acc := acc + ["  " + sub[j]];
      }
      assert sub[..|sub|] == sub;
      assert vs[..i + 1][..i] == vs[..i];
    }
    assert vs[..|t.branches|] == vs;
    lines := [TreeSpec.DecimalString(t.lbl)] + acc;
  }
}
