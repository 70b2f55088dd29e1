// The accessibility tree renderer of the Linux computer-use bridge and the way back from
// a rendered record to its node (native/computer-use-linux/runtime.py).
module AccessibilityTree {
  import opened Wrappers

  const MAX_NODES := 1200
  const MAX_DEPTH := 64

  // What the renderer reads of an accessible object.  `roleKey` is the lower-cased role.
  // Children carry their own index, because missing children are skipped.
  datatype Node = Node(
    role: string,
    roleKey: string,
    name: string,
    automationId: string,
    value: string,
    isSelected: bool,
    actions: seq<string>,
    children: seq<Child>)

  datatype Child = Child(index: nat, node: Node)

  predicate WellFormed(node: Node) {
    && (forall i, j :: 0 <= i < j < |node.children| ==> node.children[i].index < node.children[j].index)
    && (forall i :: 0 <= i < |node.children| ==> WellFormed(node.children[i].node))
  }

  // The parts of the renderer that look at texts: the summary of a plain-text subtree,
  // which actions are worth showing, and what a line says after the index.
  datatype View = View(
    summary: Node -> Option<string>,
    meaningful: string -> bool,
    describe: Node -> string)

  // What str.split and str.strip treat as blank.
  predicate IsSpace(c: char) {
    || '\t' <= c <= '\r' || '\U{1C}' <= c <= ' '
    || c == '\U{85}' || c == '\U{A0}' || c == '\U{1680}'
    || '\U{2000}' <= c <= '\U{200A}'
    || c == '\U{2028}' || c == '\U{2029}' || c == '\U{202F}' || c == '\U{205F}' || c == '\U{3000}'
  }

  predicate HasText(s: string) {
    exists k :: 0 <= k < |s| && !IsSpace(s[k])
  }

  predicate IsContainer(roleKey: string) {
    roleKey in ["panel", "filler", "unknown", "section"]
  }

  function GenericSummary(view: View, node: Node): Option<string> {
    if IsContainer(node.roleKey) && node.name == "" && node.value == "" then view.summary(node) else None
  }

  predicate ShouldElide(view: View, node: Node) {
    && IsContainer(node.roleKey)
    && node.name == "" && node.automationId == "" && node.value == ""
    && (forall k :: 0 <= k < |node.actions| ==> !view.meaningful(node.actions[k]))
    && GenericSummary(view, node).None?
    && |node.children| <= 1
  }

  function Title(node: Node): string {
    if node.name != "" then node.name else node.automationId
  }

  predicate IsCompactControl(roleKey: string) {
    roleKey in ["button", "check box", "checkbox", "combo box", "heading", "link",
                "menu item", "page tab", "push button", "radio button"]
  }

  predicate SuppressChildren(view: View, node: Node) {
    var summary := GenericSummary(view, node);
    && (Title(node) != "" || HasText(node.value) || (summary.Some? && HasText(summary.value)))
    && IsCompactControl(node.roleKey)
  }

  predicate IsLeaf(view: View, node: Node) {
    || (GenericSummary(view, node).Some? && GenericSummary(view, node).value != "")
    || SuppressChildren(view, node)
  }

  datatype Record = Record(
    index: nat,
    runtimeId: seq<nat>,
    controlType: string,
    name: string,
    automationId: string,
    value: string,
    isSelected: bool,
    actions: seq<string>)

  function Digit(d: nat): char
    requires d < 10
  {
    "0123456789"[d]
  }

  function Decimal(n: nat): string {
    if n < 10 then [Digit(n)] else Decimal(n / 10) + [Digit(n % 10)]
  }

  function Tabs(depth: nat): string {
    seq(depth, _ => '\t')
  }

  // ---------------------------------------------------------------------------
  // What is shown of a tree: an independent definition, without the node limit

  datatype Shown = Shown(node: Node, depth: nat, path: seq<nat>)

  // The shown nodes in preorder; `bounded` applies the depth limit.
  function Visible(view: View, node: Node, depth: nat, path: seq<nat>, bounded: bool): seq<Shown>
    decreases node, 1
  {
    if bounded && depth > MAX_DEPTH then []
    else if ShouldElide(view, node) then VisibleChildren(view, node.children, depth, path, bounded)
    else
      [Shown(node, depth, path)]
      + (if IsLeaf(view, node) then [] else VisibleChildren(view, node.children, depth + 1, path, bounded))
  }

  function VisibleChildren(view: View, children: seq<Child>, depth: nat, path: seq<nat>, bounded: bool): seq<Shown>
    decreases children, 0
  {
    if children == [] then []
    else
      var last := children[|children| - 1];
      assert last.node < last;
      VisibleChildren(view, children[..|children| - 1], depth, path, bounded)
      + Visible(view, last.node, depth, path + [last.index], bounded)
  }

  // The walk would go below the depth limit.
  predicate TooDeep(view: View, node: Node, depth: nat)
    decreases node, 1
  {
    || depth > MAX_DEPTH
    || (if ShouldElide(view, node) then AnyTooDeep(view, node.children, depth)
        else !IsLeaf(view, node) && AnyTooDeep(view, node.children, depth + 1))
  }

  predicate AnyTooDeep(view: View, children: seq<Child>, depth: nat)
    decreases children, 0
  {
    children != []
    && (var last := children[|children| - 1];
        assert last.node < last;
        TooDeep(view, last.node, depth) || AnyTooDeep(view, children[..|children| - 1], depth))
  }

  lemma {:induction false} TooDeepGrows(view: View, children: seq<Child>, k: nat, depth: nat)
    requires k < |children|
    ensures AnyTooDeep(view, children[..k + 1], depth)
       <==> TooDeep(view, children[k].node, depth) || AnyTooDeep(view, children[..k], depth)
  {
    assert children[..k + 1][..k] == children[..k];
  }

  lemma TooDeepCases(view: View, node: Node, depth: nat)
    ensures TooDeep(view, node, depth) == (
              || depth > MAX_DEPTH
              || (if ShouldElide(view, node) then AnyTooDeep(view, node.children, depth)
                  else !IsLeaf(view, node) && AnyTooDeep(view, node.children, depth + 1)))
  {
  }

  function RecordOf(shown: Shown, index: nat): Record {
    Record(index, shown.path, shown.node.role, shown.node.name, shown.node.automationId,
           shown.node.value, shown.node.isSelected, shown.node.actions)
  }

  function LineOf(view: View, shown: Shown, index: nat): string {
    Tabs(shown.depth) + Decimal(index) + view.describe(shown.node)
  }

  function Cap(shown: seq<Shown>): seq<Shown> {
    if |shown| <= MAX_NODES then shown else shown[..MAX_NODES]
  }

  lemma VisibleCases(view: View, node: Node, depth: nat, path: seq<nat>, bounded: bool)
    ensures Visible(view, node, depth, path, bounded) == (
              if bounded && depth > MAX_DEPTH then []
              else if ShouldElide(view, node) then VisibleChildren(view, node.children, depth, path, bounded)
              else if IsLeaf(view, node) then [Shown(node, depth, path)]
              else [Shown(node, depth, path)] + VisibleChildren(view, node.children, depth + 1, path, bounded))
  {
  }

  lemma VisibleChildrenGrow(view: View, children: seq<Child>, k: nat, depth: nat, path: seq<nat>, bounded: bool)
    requires k < |children|
    ensures VisibleChildren(view, children[..k + 1], depth, path, bounded)
         == VisibleChildren(view, children[..k], depth, path, bounded)
          + Visible(view, children[k].node, depth, path + [children[k].index], bounded)
  {
    assert children[..k + 1][..k] == children[..k];
  }

  lemma Regroup(before: seq<Shown>, one: Shown, rest: seq<Shown>)
    ensures before + [one] + rest == before + ([one] + rest)
  {
  }

  lemma CapCap(a: seq<Shown>, b: seq<Shown>)
    ensures Cap(Cap(a) + b) == Cap(a + b)
  {
  }

  lemma GrowCapped(before: seq<Shown>, done: seq<Shown>, more: seq<Shown>)
    ensures Cap(Cap(before + done) + more) == Cap(before + (done + more))
  {
    assert before + done + more == before + (done + more);
    CapCap(before + done, more);
  }

  // ---------------------------------------------------------------------------
  // The renderer, without browser-tab compaction

  class Renderer {
    const view: View
    var records: seq<Record>
    var lines: seq<string>
    var truncated: bool
    var maxDepthReached: bool
    ghost var shown: seq<Shown>

    // Record i and line i are those of the i-th shown node, and carry the index i.
    ghost predicate Valid()
      reads this
    {
      && |records| == |lines| == |shown| <= MAX_NODES
      && (forall i :: 0 <= i < |shown| ==> records[i] == RecordOf(shown[i], i))
      && (forall i :: 0 <= i < |shown| ==> lines[i] == LineOf(view, shown[i], i))
      && (maxDepthReached ==> truncated)
    }

    constructor (view: View)
      ensures Valid() && this.view == view && shown == [] && !truncated && !maxDepthReached
    {
      this.view := view;
      records, lines, shown := [], [], [];
      truncated, maxDepthReached := false, false;
    }

    // The walk shows as much of the preorder as fits, and if it reports no truncation it
    // has shown all there is.
    method Walk(node: Node, depth: nat, path: seq<nat>)
      requires Valid()
      modifies this
      ensures Valid()
      ensures shown == Cap(old(shown) + Visible(view, node, depth, path, true))
      ensures old(truncated) ==> truncated
      ensures !truncated ==> shown == old(shown) + Visible(view, node, depth, path, false)
      ensures truncated ==> old(truncated) || |shown| == MAX_NODES || TooDeep(view, node, depth)
      ensures maxDepthReached ==> old(maxDepthReached) || TooDeep(view, node, depth)
      ensures old(maxDepthReached) || TooDeep(view, node, depth) ==> maxDepthReached || |shown| == MAX_NODES
      decreases node, 1
    {
      VisibleCases(view, node, depth, path, true);
      VisibleCases(view, node, depth, path, false);
      TooDeepCases(view, node, depth);
      hide Visible, VisibleChildren, TooDeep, AnyTooDeep, ShouldElide, IsLeaf, LineOf;
      if |records| >= MAX_NODES || depth > MAX_DEPTH {
        truncated := true;
        if depth > MAX_DEPTH {
          maxDepthReached := true;
        }
        return;
      }
      var item := Record(|records|, path, node.role, node.name, node.automationId,
                         node.value, node.isSelected, node.actions);
      if ShouldElide(view, node) {
        WalkChildren(node.children, depth, path);
        return;
      }
      Append(item, node, depth, path);
      if IsLeaf(view, node) {
        return;
      }
      WalkChildren(node.children, depth + 1, path);
      Regroup(old(shown), Shown(node, depth, path), VisibleChildren(view, node.children, depth + 1, path, true));
      Regroup(old(shown), Shown(node, depth, path), VisibleChildren(view, node.children, depth + 1, path, false));
    }

    // Puts a node's record and line at the end.
    method Append(item: Record, node: Node, depth: nat, path: seq<nat>)
      requires Valid() && |records| < MAX_NODES
      requires item == RecordOf(Shown(node, depth, path), |records|)
      modifies this`records, this`lines, this`shown
      ensures Valid() && shown == old(shown) + [Shown(node, depth, path)]
    {
      records := records + [item];
      lines := lines + [Tabs(depth) + Decimal(item.index) + view.describe(node)];
      shown := shown + [Shown(node, depth, path)];
    }

    method WalkChildren(children: seq<Child>, depth: nat, path: seq<nat>)
      requires Valid()
      modifies this
      ensures Valid()
      ensures shown == Cap(old(shown) + VisibleChildren(view, children, depth, path, true))
      ensures old(truncated) ==> truncated
      ensures !truncated ==> shown == old(shown) + VisibleChildren(view, children, depth, path, false)
      ensures truncated ==> old(truncated) || |shown| == MAX_NODES || AnyTooDeep(view, children, depth)
      ensures maxDepthReached ==> old(maxDepthReached) || AnyTooDeep(view, children, depth)
      ensures old(maxDepthReached) || AnyTooDeep(view, children, depth) ==> maxDepthReached || |shown| == MAX_NODES
      decreases children, 0
    {
      assert VisibleChildren(view, children[..0], depth, path, true) == [];
      assert VisibleChildren(view, children[..0], depth, path, false) == [];
      assert !AnyTooDeep(view, children[..0], depth);
      hide Visible, VisibleChildren, TooDeep, AnyTooDeep, Valid;
      ghost var before := shown;
      assert before + [] == before && |before| <= MAX_NODES;
      for k := 0 to |children|
        invariant Valid()
        invariant shown == Cap(before + VisibleChildren(view, children[..k], depth, path, true))
        invariant old(truncated) ==> truncated
        invariant !truncated ==> shown == before + VisibleChildren(view, children[..k], depth, path, false)
        invariant truncated ==> old(truncated) || |shown| == MAX_NODES || AnyTooDeep(view, children[..k], depth)
        invariant maxDepthReached ==> old(maxDepthReached) || AnyTooDeep(view, children[..k], depth)
        invariant old(maxDepthReached) || AnyTooDeep(view, children[..k], depth) ==> maxDepthReached || |shown| == MAX_NODES
      {
        var child := children[k];
        assert child.node < child;
        Walk(child.node, depth, path + [child.index]);
        VisibleChildrenGrow(view, children, k, depth, path, true);
        VisibleChildrenGrow(view, children, k, depth, path, false);
        TooDeepGrows(view, children, k, depth);
        GrowCapped(before, VisibleChildren(view, children[..k], depth, path, true),
                   Visible(view, child.node, depth, path + [child.index], true));
        assert before + VisibleChildren(view, children[..k], depth, path, false)
             + Visible(view, child.node, depth, path + [child.index], false)
            == before + VisibleChildren(view, children[..k + 1], depth, path, false);
      }
      assert children[..|children|] == children;
    }
  }

  // ---------------------------------------------------------------------------
  // Paths: preorder, pairwise distinct, and back to the node

  // The order in which paths are visited: a path before its extensions, smaller child
  // indices before larger ones.
  predicate Before(p: seq<nat>, q: seq<nat>) {
    if q == [] then false
    else if p == [] then true
    else p[0] < q[0] || (p[0] == q[0] && Before(p[1..], q[1..]))
  }

  lemma {:induction false} BeforeIsIrreflexive(p: seq<nat>)
    ensures !Before(p, p)
  {
    if p != [] {
      BeforeIsIrreflexive(p[1..]);
    }
  }

  predicate Extends(p: seq<nat>, base: seq<nat>) {
    |base| <= |p| && p[..|base|] == base
  }

  lemma {:induction false} BeforeExtension(base: seq<nat>, p: seq<nat>)
    requires Extends(p, base) && |p| > |base|
    ensures Before(base, p)
  {
    if base != [] {
      assert p[1..][..|base| - 1] == base[1..];
      BeforeExtension(base[1..], p[1..]);
    }
  }

  lemma {:induction false} BeforeSibling(base: seq<nat>, i: nat, j: nat, p: seq<nat>, q: seq<nat>)
    requires i < j && Extends(p, base + [i]) && Extends(q, base + [j])
    ensures Before(p, q)
  {
    if base == [] {
      assert p[0] == p[..1][0] && q[0] == q[..1][0];
    } else {
      assert p[0] == p[..|base| + 1][0] == base[0] == q[..|base| + 1][0] == q[0];
      assert p[1..][..|base|] == p[..|base| + 1][1..] == base[1..] + [i];
      assert q[1..][..|base|] == q[..|base| + 1][1..] == base[1..] + [j];
      BeforeSibling(base[1..], i, j, p[1..], q[1..]);
    }
  }

  // In strictly increasing visiting order, and all below `base`.
  ghost predicate InOrder(shown: seq<Shown>, base: seq<nat>) {
    && (forall i :: 0 <= i < |shown| ==> Extends(shown[i].path, base))
    && (forall i, j :: 0 <= i < j < |shown| ==> Before(shown[i].path, shown[j].path))
  }

  // ... and below a child of `base` with an index less than `bound`.
  ghost predicate InOrderBelow(shown: seq<Shown>, base: seq<nat>, bound: nat) {
    && InOrder(shown, base)
    && (forall i :: 0 <= i < |shown| ==> |shown[i].path| > |base| && shown[i].path[|base|] < bound)
  }

  lemma InOrderAppend(a: seq<Shown>, b: seq<Shown>, base: seq<nat>, i: nat, j: nat)
    requires InOrderBelow(a, base, i) && InOrder(b, base + [i]) && i < j
    ensures InOrderBelow(a + b, base, j)
  {
    var c := a + b;
    forall k | 0 <= k < |b|
      ensures Extends(b[k].path, base) && |b[k].path| > |base| && b[k].path[|base|] == i
    {
      assert b[k].path[..|base| + 1] == base + [i];
      assert b[k].path[..|base|] == b[k].path[..|base| + 1][..|base|] == base;
      assert b[k].path[|base|] == b[k].path[..|base| + 1][|base|];
    }
    forall x, y | 0 <= x < y < |c|
      ensures Before(c[x].path, c[y].path)
    {
      if x < |a| <= y {
        var p := a[x].path;
        assert p[..|base| + 1] == base + [p[|base|]];
        BeforeSibling(base, p[|base|], i, p, b[y - |a|].path);
      }
    }
  }

  lemma InOrderPrepend(first: Shown, below: seq<Shown>, bound: nat)
    requires InOrderBelow(below, first.path, bound)
    ensures InOrder([first] + below, first.path)
  {
    forall k | 0 <= k < |below|
      ensures Before(first.path, below[k].path)
    {
      BeforeExtension(first.path, below[k].path);
    }
  }

  lemma InOrderSingle(first: Shown)
    ensures InOrder([], first.path) && InOrder([first], first.path)
    ensures forall below, bound :: InOrderBelow(below, first.path, bound) ==> InOrder(below, first.path)
  {
  }

  lemma {:induction false} VisibleInOrder(view: View, node: Node, depth: nat, path: seq<nat>, bounded: bool)
    requires WellFormed(node)
    ensures InOrder(Visible(view, node, depth, path, bounded), path)
    decreases node, 1
  {
    var bound := if node.children == [] then 0 else node.children[|node.children| - 1].index + 1;
    VisibleChildrenInOrder(view, node.children, depth, path, bounded, bound);
    VisibleChildrenInOrder(view, node.children, depth + 1, path, bounded, bound);
    VisibleCases(view, node, depth, path, bounded);
    hide *;
    InOrderSingle(Shown(node, depth, path));
    InOrderPrepend(Shown(node, depth, path), VisibleChildren(view, node.children, depth + 1, path, bounded), bound);
  }

  lemma {:induction false} VisibleChildrenInOrder(view: View, children: seq<Child>, depth: nat, path: seq<nat>,
                                                  bounded: bool, bound: nat)
    requires forall i, j :: 0 <= i < j < |children| ==> children[i].index < children[j].index
    requires forall i :: 0 <= i < |children| ==> WellFormed(children[i].node) && children[i].index < bound
    ensures InOrderBelow(VisibleChildren(view, children, depth, path, bounded), path, bound)
    decreases children, 0
  {
    if children != [] {
      var last := children[|children| - 1];
      assert last.node < last;
      VisibleChildrenInOrder(view, children[..|children| - 1], depth, path, bounded, last.index);
      VisibleInOrder(view, last.node, depth, path + [last.index], bounded);
      InOrderAppend(VisibleChildren(view, children[..|children| - 1], depth, path, bounded),
                    Visible(view, last.node, depth, path + [last.index], bounded), path, last.index, bound);
    }
  }

  // ---------------------------------------------------------------------------
  // Indentation

  predicate ProperPrefix(p: seq<nat>, q: seq<nat>) {
    |p| < |q| && Extends(q, p)
  }

  // How many shown nodes are proper ancestors of the node with path `p`.
  function Ancestors(shown: seq<Shown>, p: seq<nat>): nat {
    if shown == [] then 0
    else
      Ancestors(shown[..|shown| - 1], p)
      + (if ProperPrefix(shown[|shown| - 1].path, p) then 1 else 0)
  }

  lemma {:induction false} AncestorsBoth(a: seq<Shown>, b: seq<Shown>, p: seq<nat>)
    ensures Ancestors(a + b, p) == Ancestors(a, p) + Ancestors(b, p)
    decreases |b|
  {
    if b == [] {
      assert a + b == a;
    } else {
      assert (a + b)[..|a + b| - 1] == a + b[..|b| - 1];
      AncestorsBoth(a, b[..|b| - 1], p);
    }
  }

  lemma {:induction false} NoAncestors(shown: seq<Shown>, p: seq<nat>)
    requires forall i :: 0 <= i < |shown| ==> !ProperPrefix(shown[i].path, p)
    ensures Ancestors(shown, p) == 0
  {
    if shown != [] {
      NoAncestors(shown[..|shown| - 1], p);
    }
  }

  ghost predicate Indented(shown: seq<Shown>, depth: nat) {
    forall i :: 0 <= i < |shown| ==> shown[i].depth == depth + Ancestors(shown, shown[i].path)
  }

  lemma PrefixAgrees(p: seq<nat>, q: seq<nat>, k: nat)
    requires k < |p| && k < |q|
    ensures ProperPrefix(p, q) ==> p[k] == q[k]
  {
    assert |p| <= |q| ==> q[..|p|][k] == q[k];
  }

  lemma IndentedBoth(a: seq<Shown>, b: seq<Shown>, base: seq<nat>, i: nat, depth: nat)
    requires InOrderBelow(a, base, i) && InOrder(b, base + [i]) && Indented(a, depth) && Indented(b, depth)
    ensures Indented(a + b, depth)
  {
    forall x, y | 0 <= x < |a| && 0 <= y < |b|
      ensures !ProperPrefix(a[x].path, b[y].path) && !ProperPrefix(b[y].path, a[x].path)
    {
      var p, q := a[x].path, b[y].path;
      assert q[|base|] == q[..|base| + 1][|base|] == i;
      PrefixAgrees(p, q, |base|);
      PrefixAgrees(q, p, |base|);
    }
    forall k | 0 <= k < |a + b|
      ensures (a + b)[k].depth == depth + Ancestors(a + b, (a + b)[k].path)
    {
      var p := (a + b)[k].path;
      AncestorsBoth(a, b, p);
      if k < |a| {
        NoAncestors(b, p);
      } else {
        NoAncestors(a, p);
      }
    }
  }

  lemma IndentedPrepend(first: Shown, below: seq<Shown>, bound: nat)
    requires InOrderBelow(below, first.path, bound) && Indented(below, first.depth + 1)
    ensures Indented([first] + below, first.depth)
  {
    var all := [first] + below;
    assert forall p :: Ancestors([first], p) == if ProperPrefix(first.path, p) then 1 else 0 by {
      assert [first][..0] == [];
    }
    forall k | 0 <= k < |all|
      ensures all[k].depth == first.depth + Ancestors(all, all[k].path)
    {
      AncestorsBoth([first], below, all[k].path);
      if k == 0 {
        NoAncestors(below, first.path);
      } else {
        assert all[k] == below[k - 1];
      }
    }
  }

  lemma IndentedSingle(first: Shown)
    ensures Indented([], first.depth) && Indented([first], first.depth)
  {
    assert [first][..0] == [];
  }

  lemma {:induction false} VisibleIndented(view: View, node: Node, depth: nat, path: seq<nat>, bounded: bool)
    requires WellFormed(node)
    ensures Indented(Visible(view, node, depth, path, bounded), depth)
    decreases node, 1
  {
    var bound := if node.children == [] then 0 else node.children[|node.children| - 1].index + 1;
    VisibleChildrenIndented(view, node.children, depth, path, bounded, bound);
    VisibleChildrenIndented(view, node.children, depth + 1, path, bounded, bound);
    VisibleChildrenInOrder(view, node.children, depth + 1, path, bounded, bound);
    VisibleCases(view, node, depth, path, bounded);
    hide *;
    IndentedSingle(Shown(node, depth, path));
    IndentedPrepend(Shown(node, depth, path), VisibleChildren(view, node.children, depth + 1, path, bounded), bound);
  }

  lemma {:induction false} VisibleChildrenIndented(view: View, children: seq<Child>, depth: nat, path: seq<nat>,
                                                   bounded: bool, bound: nat)
    requires forall i, j :: 0 <= i < j < |children| ==> children[i].index < children[j].index
    requires forall i :: 0 <= i < |children| ==> WellFormed(children[i].node) && children[i].index < bound
    ensures Indented(VisibleChildren(view, children, depth, path, bounded), depth)
    decreases children, 0
  {
    if children != [] {
      var last := children[|children| - 1];
      assert last.node < last;
      VisibleChildrenIndented(view, children[..|children| - 1], depth, path, bounded, last.index);
      VisibleChildrenInOrder(view, children[..|children| - 1], depth, path, bounded, last.index);
      VisibleIndented(view, last.node, depth, path + [last.index], bounded);
      VisibleInOrder(view, last.node, depth, path + [last.index], bounded);
      IndentedBoth(VisibleChildren(view, children[..|children| - 1], depth, path, bounded),
                   Visible(view, last.node, depth, path + [last.index], bounded), path, last.index, depth);
    }
  }

  lemma {:induction false} BeforeIsAsymmetric(p: seq<nat>, q: seq<nat>)
    requires Before(p, q)
    ensures !Before(q, p)
  {
    if p != [] && q != [] && p[0] == q[0] {
      BeforeIsAsymmetric(p[1..], q[1..]);
    }
  }

  // find_by_path: the child lookup and the walk along a path.
  function ChildAt(children: seq<Child>, index: nat): Option<Node> {
    if children == [] then None
    else if children[|children| - 1].index == index then Some(children[|children| - 1].node)
    else ChildAt(children[..|children| - 1], index)
  }

  function Resolve(node: Node, path: seq<nat>): Option<Node>
    decreases |path|
  {
    if path == [] then Some(node)
    else
      match ChildAt(node.children, path[0])
      case None => None
      case Some(child) => Resolve(child, path[1..])
  }

  method FindByPath(app: Node, path: seq<nat>) returns (found: Option<Node>)
    ensures found == Resolve(app, path)
  {
    var node := app;
    for i := 0 to |path|
      invariant Resolve(node, path[i..]) == Resolve(app, path)
    {
      assert path[i..][0] == path[i] && path[i..][1..] == path[i + 1..];
      match ChildAt(node.children, path[i]) {
        case None => return None;
        case Some(child) => node := child;
      }
    }
    assert path[|path|..] == [];
    return Some(node);
  }

  lemma {:induction false} ChildAtFinds(children: seq<Child>, k: nat)
    requires k < |children|
    requires forall i, j :: 0 <= i < j < |children| ==> children[i].index < children[j].index
    ensures ChildAt(children, children[k].index) == Some(children[k].node)
  {
    if k < |children| - 1 {
      ChildAtFinds(children[..|children| - 1], k);
    }
  }

  // Every shown node is the one its path leads to, from the node `path` stands for.
  ghost predicate Resolves(shown: seq<Shown>, node: Node, path: seq<nat>) {
    forall i :: 0 <= i < |shown| ==>
      && Extends(shown[i].path, path)
      && Resolve(node, shown[i].path[|path|..]) == Some(shown[i].node)
  }

  lemma {:induction false} VisibleResolves(view: View, node: Node, depth: nat, path: seq<nat>, bounded: bool)
    requires WellFormed(node)
    ensures Resolves(Visible(view, node, depth, path, bounded), node, path)
    decreases node, 1
  {
    VisibleChildrenResolve(view, node, |node.children|, depth, path, bounded);
    VisibleChildrenResolve(view, node, |node.children|, depth + 1, path, bounded);
    VisibleCases(view, node, depth, path, bounded);
    assert node.children[..|node.children|] == node.children;
    hide Visible, VisibleChildren, ShouldElide, IsLeaf;
  }

  lemma ChildPath(path: seq<nat>, index: nat, p: seq<nat>)
    requires Extends(p, path + [index])
    ensures Extends(p, path) && |p| > |path|
    ensures p[|path|..] != [] && p[|path|..][0] == index && p[|path|..][1..] == p[|path| + 1..]
  {
    assert p[..|path| + 1] == path + [index];
    assert p[..|path|] == p[..|path| + 1][..|path|] == path;
    assert p[|path|] == p[..|path| + 1][|path|] == index;
  }

  lemma ResolveThroughChild(node: Node, k: nat, path: seq<nat>, shown: seq<Shown>)
    requires WellFormed(node) && k < |node.children|
    requires Resolves(shown, node.children[k].node, path + [node.children[k].index])
    ensures Resolves(shown, node, path)
  {
    var child := node.children[k];
    ChildAtFinds(node.children, k);
    hide WellFormed, ChildAt, Extends;
    forall i | 0 <= i < |shown|
      ensures Extends(shown[i].path, path) && Resolve(node, shown[i].path[|path|..]) == Some(shown[i].node)
    {
      ChildPath(path, child.index, shown[i].path);
    }
  }

  lemma ResolvesBoth(a: seq<Shown>, b: seq<Shown>, node: Node, path: seq<nat>)
    requires Resolves(a, node, path) && Resolves(b, node, path)
    ensures Resolves(a + b, node, path)
  {
    hide Resolve, Extends;
  }

  lemma {:induction false} VisibleChildrenResolve(view: View, node: Node, k: nat, depth: nat, path: seq<nat>,
                                                  bounded: bool)
    requires WellFormed(node) && k <= |node.children|
    ensures Resolves(VisibleChildren(view, node.children[..k], depth, path, bounded), node, path)
    decreases node, 0, k
  {
    if k > 0 {
      var child := node.children[k - 1];
      assert child.node < child;
      assert WellFormed(child.node);
      hide *;
      VisibleChildrenResolve(view, node, k - 1, depth, path, bounded);
      VisibleChildrenGrow(view, node.children, k - 1, depth, path, bounded);
      VisibleResolves(view, child.node, depth, path + [child.index], bounded);
      var more := Visible(view, child.node, depth, path + [child.index], bounded);
      ResolveThroughChild(node, k - 1, path, more);
      ResolvesBoth(VisibleChildren(view, node.children[..k - 1], depth, path, bounded), more, node, path);
    }
  }

  // ---------------------------------------------------------------------------
  // Which nodes are shown, said of paths and of what the nodes hold

  // Nothing below such a node is shown: its text is summed up, or it is a control that has
  // something to be called by.
  predicate HidesBelow(view: View, node: Node) {
    || (IsContainer(node.roleKey) && node.name == "" && node.value == ""
        && view.summary(node).Some? && view.summary(node).value != "")
    || (IsCompactControl(node.roleKey) && (node.name != "" || node.automationId != "" || HasText(node.value)))
  }

  // A node that is worth a line of its own.
  predicate Notable(view: View, node: Node) {
    || !IsContainer(node.roleKey)
    || node.name != "" || node.automationId != "" || node.value != ""
    || (exists k :: 0 <= k < |node.actions| && view.meaningful(node.actions[k]))
    || view.summary(node).Some?
    || |node.children| >= 2
  }

  // The path leads to a node, and no node before the last hides what is below it.
  predicate Open(view: View, node: Node, path: seq<nat>)
    decreases |path|
  {
    path == []
    || (!HidesBelow(view, node) && ChildAt(node.children, path[0]).Some?
        && Open(view, ChildAt(node.children, path[0]).value, path[1..]))
  }

  // The node with a path is among those shown.
  predicate Shows(shown: seq<Shown>, path: seq<nat>) {
    exists i :: 0 <= i < |shown| && shown[i].path == path
  }

  lemma ShowsBoth(a: seq<Shown>, b: seq<Shown>, path: seq<nat>)
    ensures Shows(a + b, path) <==> Shows(a, path) || Shows(b, path)
  {
    assert forall i :: 0 <= i < |a| ==> (a + b)[i] == a[i];
    assert forall i :: 0 <= i < |b| ==> (a + b)[|a| + i] == b[i];
  }

  lemma ShowsOne(one: Shown, path: seq<nat>)
    ensures Shows([one], path) <==> one.path == path
    ensures !Shows([], path)
  {
    assert [one][0] == one;
  }

  // What the renderer's two questions come to.
  lemma ElidesUnlessNotable(view: View, node: Node)
    ensures ShouldElide(view, node) <==> !Notable(view, node)
    ensures IsLeaf(view, node) <==> HidesBelow(view, node)
    ensures HidesBelow(view, node) ==> Notable(view, node)
  {
    hide HasText;
  }

  lemma {:induction false} ChildAtMissing(children: seq<Child>, index: nat)
    requires forall k :: 0 <= k < |children| ==> children[k].index != index
    ensures ChildAt(children, index) == None
  {
    if children != [] {
      ChildAtMissing(children[..|children| - 1], index);
    }
  }

  lemma PathBelow(base: seq<nat>, rel: seq<nat>)
    requires rel != []
    ensures base + rel == base + [rel[0]] + rel[1..] && base + rel != base
    ensures forall index: nat :: Extends(base + rel, base + [index]) ==> index == rel[0]
  {
    assert [rel[0]] + rel[1..] == rel;
    forall index: nat | Extends(base + rel, base + [index])
      ensures index == rel[0]
    {
      assert (base + rel)[..|base| + 1][|base|] == index;
    }
  }

  // A node is shown under a path exactly when no node before it on the path hides what is
  // below, and it is worth a line itself.
  lemma {:induction false} ShownExactly(view: View, node: Node, depth: nat, base: seq<nat>, rel: seq<nat>)
    requires WellFormed(node)
    ensures Shows(Visible(view, node, depth, base, false), base + rel)
       <==> Open(view, node, rel) && Resolve(node, rel).Some? && Notable(view, Resolve(node, rel).value)
    decreases node, 1
  {
    var children := node.children;
    ElidesUnlessNotable(view, node);
    VisibleCases(view, node, depth, base, false);
    ChildrenShownExactly(view, node, |children|, depth, base, rel);
    ChildrenShownExactly(view, node, |children|, depth + 1, base, rel);
    assert children[..|children|] == children;
    OpenCases(view, node, rel);
    ShowsOne(Shown(node, depth, base), base + rel);
    hide *;
    ShowsBoth([Shown(node, depth, base)], VisibleChildren(view, children, depth + 1, base, false), base + rel);
    if rel == [] {
      assert base + rel == base;
    } else {
      PathBelow(base, rel);
    }
  }

  lemma OpenCases(view: View, node: Node, rel: seq<nat>)
    ensures rel == [] ==> Open(view, node, rel) && Resolve(node, rel) == Some(node)
    ensures rel != [] ==>
      && Open(view, node, rel) == (!HidesBelow(view, node) && OpenBelow(view, node, rel))
      && (OpenBelow(view, node, rel) ==> Resolve(node, rel) == Resolve(ChildAt(node.children, rel[0]).value, rel[1..]))
  {
    hide HidesBelow;
  }

  // The path goes on to a child, and is open from there.
  predicate OpenBelow(view: View, node: Node, rel: seq<nat>) {
    && rel != [] && ChildAt(node.children, rel[0]).Some?
    && Open(view, ChildAt(node.children, rel[0]).value, rel[1..])
  }

  // The path goes on to one of the first `k` children and shows a node there.
  predicate ShownBelow(view: View, node: Node, k: nat, rel: seq<nat>)
    requires k <= |node.children|
  {
    && rel != []
    && exists j :: 0 <= j < k && node.children[j].index == rel[0]
        && Open(view, node.children[j].node, rel[1..])
        && Resolve(node.children[j].node, rel[1..]).Some?
        && Notable(view, Resolve(node.children[j].node, rel[1..]).value)
  }

  lemma ShownBelowGrows(view: View, node: Node, k: nat, rel: seq<nat>)
    requires k < |node.children|
    ensures ShownBelow(view, node, k + 1, rel) <==>
              || ShownBelow(view, node, k, rel)
              || (rel != [] && node.children[k].index == rel[0] && Open(view, node.children[k].node, rel[1..])
                  && Resolve(node.children[k].node, rel[1..]).Some?
                  && Notable(view, Resolve(node.children[k].node, rel[1..]).value))
    ensures !ShownBelow(view, node, 0, rel)
  {
    hide Open, Resolve, Notable;
  }

  lemma {:induction false} ChildrenShownExactly(view: View, node: Node, k: nat, depth: nat, base: seq<nat>, rel: seq<nat>)
    requires WellFormed(node) && k <= |node.children|
    ensures Shows(VisibleChildren(view, node.children[..k], depth, base, false), base + rel)
       <==> ShownBelow(view, node, k, rel)
    ensures k == |node.children| ==> (ShownBelow(view, node, k, rel) <==>
              OpenBelow(view, node, rel) && Resolve(node, rel).Some? && Notable(view, Resolve(node, rel).value))
    decreases node, 0, k
  {
    if k == |node.children| {
      AllBelow(view, node, rel);
    }
    if k > 0 {
      var child := node.children[k - 1];
      assert child.node < child;
      assert WellFormed(child.node);
      ChildrenShownExactly(view, node, k - 1, depth, base, rel);
      VisibleChildrenGrow(view, node.children, k - 1, depth, base, false);
      ShownBelowGrows(view, node, k - 1, rel);
      VisibleInOrder(view, child.node, depth, base + [child.index], false);
      if rel != [] && rel[0] == child.index {
        PathBelow(base, rel);
        ShownExactly(view, child.node, depth, base + [child.index], rel[1..]);
      } else {
        NotBelow(Visible(view, child.node, depth, base + [child.index], false), base, child.index, rel);
      }
      hide *;
      ShowsBoth(VisibleChildren(view, node.children[..k - 1], depth, base, false),
                Visible(view, child.node, depth, base + [child.index], false), base + rel);
    } else {
      NothingBelow(view, node, depth, base, rel);
    }
  }

  lemma NothingBelow(view: View, node: Node, depth: nat, base: seq<nat>, rel: seq<nat>)
    ensures !Shows(VisibleChildren(view, node.children[..0], depth, base, false), base + rel)
    ensures !ShownBelow(view, node, 0, rel)
  {
    hide Open, Resolve, Notable;
  }

  lemma NotBelow(shown: seq<Shown>, base: seq<nat>, index: nat, rel: seq<nat>)
    requires InOrder(shown, base + [index]) && (rel == [] || rel[0] != index)
    ensures !Shows(shown, base + rel)
  {
    hide Before;
    if rel != [] {
      PathBelow(base, rel);
    }
  }

  lemma AllBelow(view: View, node: Node, rel: seq<nat>)
    requires WellFormed(node)
    ensures ShownBelow(view, node, |node.children|, rel) <==>
              OpenBelow(view, node, rel) && Resolve(node, rel).Some? && Notable(view, Resolve(node, rel).value)
  {
    if rel != [] {
      OpenCases(view, node, rel);
      if exists j :: 0 <= j < |node.children| && node.children[j].index == rel[0] {
        var j :| 0 <= j < |node.children| && node.children[j].index == rel[0];
        ChildAtFinds(node.children, j);
        assert forall i :: 0 <= i < |node.children| && node.children[i].index == rel[0] ==> i == j;
      } else {
        ChildAtMissing(node.children, rel[0]);
      }
    }
    hide Open, Resolve, Notable, ChildAt, HidesBelow;
  }

  // ---------------------------------------------------------------------------
  // Snapshots

  function RecordsOf(shown: seq<Shown>): (records: seq<Record>)
    ensures |records| == |shown|
    ensures forall i :: 0 <= i < |shown| ==> records[i] == RecordOf(shown[i], i)
  {
    seq(|shown|, i requires 0 <= i < |shown| => RecordOf(shown[i], i))
  }

  function LinesOf(view: View, shown: seq<Shown>): (lines: seq<string>)
    ensures |lines| == |shown|
    ensures forall i :: 0 <= i < |shown| ==> lines[i] == LineOf(view, shown[i], i)
  {
    seq(|shown|, i requires 0 <= i < |shown| => LineOf(view, shown[i], i))
  }

  // The nodes a snapshot of a window shows.
  function SnapshotOf(view: View, window: Node, windowIndex: nat): seq<Shown> {
    Cap(Visible(view, window, 0, [windowIndex], true))
  }

  // render_accessibility_tree for one window of an application.
  method RenderAccessibilityTree(view: View, window: Node, windowIndex: nat)
    returns (records: seq<Record>, lines: seq<string>, truncated: bool, maxDepthReached: bool)
    ensures records == RecordsOf(SnapshotOf(view, window, windowIndex))
    ensures lines == LinesOf(view, SnapshotOf(view, window, windowIndex))
    ensures |records| <= MAX_NODES
    ensures !truncated ==> SnapshotOf(view, window, windowIndex) == Visible(view, window, 0, [windowIndex], false)
    ensures truncated ==> |records| == MAX_NODES || TooDeep(view, window, 0)
    ensures maxDepthReached ==> truncated && TooDeep(view, window, 0)
    ensures TooDeep(view, window, 0) ==> maxDepthReached || |records| == MAX_NODES
  {
    var renderer := new Renderer(view);
    renderer.Walk(window, 0, [windowIndex]);
    assert [] + Visible(view, window, 0, [windowIndex], true) == Visible(view, window, 0, [windowIndex], true);
    assert [] + Visible(view, window, 0, [windowIndex], false) == Visible(view, window, 0, [windowIndex], false);
    return renderer.records, renderer.lines, renderer.truncated, renderer.maxDepthReached;
  }

  // Records are numbered from zero, at most 1200, in preorder of their paths, and so no
  // two records share a path.
  lemma RecordsAreInPreorder(view: View, window: Node, windowIndex: nat, i: nat, j: nat)
    requires WellFormed(window)
    requires i < j < |SnapshotOf(view, window, windowIndex)|
    ensures var records := RecordsOf(SnapshotOf(view, window, windowIndex));
            && |records| <= MAX_NODES && records[i].index == i && records[j].index == j
            && Before(records[i].runtimeId, records[j].runtimeId)
            && records[i].runtimeId != records[j].runtimeId
  {
    VisibleInOrder(view, window, 0, [windowIndex], true);
    BeforeIsIrreflexive(SnapshotOf(view, window, windowIndex)[i].path);
    hide Visible, Before;
  }

  // A line is indented by the number of shown nodes above it: elided nodes do not indent.
  lemma LinesAreIndentedByAncestors(view: View, window: Node, windowIndex: nat, i: nat)
    requires WellFormed(window) && i < |SnapshotOf(view, window, windowIndex)|
    ensures var shown := SnapshotOf(view, window, windowIndex);
            && i < |LinesOf(view, shown)|
            && LinesOf(view, shown)[i]
               == Tabs(Ancestors(shown, shown[i].path)) + Decimal(i) + view.describe(shown[i].node)
  {
    VisibleIndented(view, window, 0, [windowIndex], true);
    VisibleInOrder(view, window, 0, [windowIndex], true);
    var all := Visible(view, window, 0, [windowIndex], true);
    var shown := Cap(all);
    hide Visible;
    var cut := all[|shown|..];
    assert shown + cut == all;
    var p := shown[i].path;
    forall k | 0 <= k < |cut|
      ensures !ProperPrefix(cut[k].path, p)
    {
      assert Before(p, all[|shown| + k].path);
      BeforeIsAsymmetric(p, cut[k].path);
      if ProperPrefix(cut[k].path, p) {
        BeforeExtension(cut[k].path, p);
      }
    }
    AncestorsBoth(shown, cut, p);
    NoAncestors(cut, p);
  }

  predicate SameElementSignature(node: Node, saved: Record) {
    node.role == saved.controlType && node.name == saved.name
    && node.automationId == saved.automationId && node.actions == saved.actions
  }

  method FindElement(app: Node, saved: Record) returns (found: Option<Node>)
    ensures found == Element(app, saved)
  {
    var byPath := FindByPath(app, saved.runtimeId);
    if byPath.Some? && SameElementSignature(byPath.value, saved) {
      return byPath;
    }
    return None;
  }

  function Element(app: Node, saved: Record): Option<Node> {
    var byPath := Resolve(app, saved.runtimeId);
    if byPath.Some? && SameElementSignature(byPath.value, saved) then byPath else None
  }

  // On an unchanged application every record of a snapshot leads back to exactly the
  // node it was made from, through elided nodes and skipped child indices alike.
  lemma RecordsLeadBack(view: View, app: Node, k: nat, i: nat)
    requires WellFormed(app) && k < |app.children|
    requires i < |SnapshotOf(view, app.children[k].node, app.children[k].index)|
    ensures var window := app.children[k];
            var shown := SnapshotOf(view, window.node, window.index);
            && Resolve(app, RecordsOf(shown)[i].runtimeId) == Some(shown[i].node)
            && Element(app, RecordsOf(shown)[i]) == Some(shown[i].node)
            && RecordsOf(shown)[i].value == shown[i].node.value
            && RecordsOf(shown)[i].isSelected == shown[i].node.isSelected
  {
    var window := app.children[k];
    VisibleResolves(view, window.node, 0, [window.index], true);
    ChildAtFinds(app.children, k);
    var shown := SnapshotOf(view, window.node, window.index);
    hide Visible;
    var p := shown[i].path;
    assert p[0] == p[..1][0] == window.index;
  }

  predicate SameSignature(a: Node, b: Node) {
    a.role == b.role && a.name == b.name && a.automationId == b.automationId && a.actions == b.actions
  }

  // On an application that has changed since, a record finds a node exactly when its path
  // now leads to one with the signature of the node it was made from, and then finds that;
  // it never falls back on another.
  lemma RecordsNeverLeadAstray(view: View, app: Node, k: nat, i: nat, later: Node, found: Node)
    requires WellFormed(app) && k < |app.children|
    requires i < |SnapshotOf(view, app.children[k].node, app.children[k].index)|
    ensures var window := app.children[k];
            var shown := SnapshotOf(view, window.node, window.index);
            var path := shown[i].path;
            && Element(later, RecordsOf(shown)[i]) == Some(found) <==>
                 (Resolve(later, path) == Some(found) && Resolve(app, path).Some?
                  && SameSignature(found, Resolve(app, path).value))
  {
    RecordsLeadBack(view, app, k, i);
    hide Visible, Resolve;
  }
}
