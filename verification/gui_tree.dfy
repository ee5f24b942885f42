/** The tree model of gui/tree.py. A node is a name and a list of
    children; a node inside a tree is identified by its index path from the
    root, which is what `Node.path` computes and `get_node` follows. The
    `Tree` keeps its selection as the paths of the selected nodes. */
module GuiTree {
  import opened Results

  datatype Node = Node(name: string, children: seq<Node>)

  datatype IndexError = IndexError

  // ---- index paths ----

  /** Python's `children[i]` index check: negative indices count from the end. */
  function PyIndex(i: int, n: nat): (r: Option<nat>)
    ensures r.Some? <==> 0 <= i + n && i < n
    ensures r.Some? ==> r.value < n && (if i < 0 then r.value == i + n else r.value == i)
  {
    if 0 <= i < n then Some(i)
    else if 0 <= i + n && i < 0 then Some(i + n)
    else None
  }

  /** `q` names a node of `t`: every index is within its parent's children. */
  predicate ValidPath(t: Node, q: seq<nat>)
    decreases |q|
  {
    |q| == 0 || (q[0] < |t.children| && ValidPath(t.children[q[0]], q[1..]))
  }

  /** The node at a valid path. */
  function At(t: Node, q: seq<nat>): Node
    requires ValidPath(t, q)
    decreases |q|
  {
    if |q| == 0 then t else At(t.children[q[0]], q[1..])
  }

  /** `q` is where following the indices `p` from `t` leads: each index of
      `p`, read as Python reads it against the children of the node reached
      so far, is the corresponding index of `q`. */
  predicate Follows(t: Node, p: seq<int>, q: seq<nat>) {
    && |q| == |p|
    && forall k :: 0 <= k < |p| ==>
      && ValidPath(t, q[..k])
      && PyIndex(p[k], |At(t, q[..k]).children|) == Some(q[k])
  }

  /** Follows `p` from `t` as `get_node` does, giving the node's own
      (non-negative) path, or IndexError at the first index out of range. */
  function Resolve(t: Node, p: seq<int>): (r: Result<seq<nat>, IndexError>)
    ensures r.Ok? ==> ValidPath(t, r.value) && Follows(t, p, r.value)
    ensures |p| > 0 && PyIndex(p[0], |t.children|).None? ==> r.Err?
    decreases |p|
  {
    if |p| == 0 then Ok([])
    else
      match PyIndex(p[0], |t.children|)
      case None => Err(IndexError)
      case Some(i) =>
        match Resolve(t.children[i], p[1..])
        case Err(e) => Err(e)
        case Ok(rest) =>
          assert ([i] + rest)[1..] == rest;
          FollowsCons(t, p, i, rest);
          Ok([i] + rest)
  }

  /** A path below child `i` is valid and leads to the same node as the
      rest of the path does from that child. */
  lemma UnderChild(t: Node, i: nat, x: seq<nat>)
    requires i < |t.children|
    ensures ValidPath(t, [i] + x) <==> ValidPath(t.children[i], x)
    ensures ValidPath(t, [i] + x) ==> At(t, [i] + x) == At(t.children[i], x)
  {
    assert ([i] + x)[1..] == x;
  }

  lemma FollowsCons(t: Node, p: seq<int>, i: nat, rest: seq<nat>)
    requires |p| > 0 && i < |t.children| && PyIndex(p[0], |t.children|) == Some(i)
    requires Follows(t.children[i], p[1..], rest)
    ensures Follows(t, p, [i] + rest)
  {
    var q := [i] + rest;
    forall k | 0 <= k < |p|
      ensures ValidPath(t, q[..k]) && PyIndex(p[k], |At(t, q[..k]).children|) == Some(q[k])
    {
      if k == 0 {
        assert q[..0] == [];
      } else {
        assert q[..k] == [i] + rest[..k - 1];
        UnderChild(t, i, rest[..k - 1]);
        assert p[k] == p[1..][k - 1];
      }
    }
  }

  /** `Resolve` succeeds with exactly the path that `p` leads to, and fails
      exactly when no path does. */
  lemma {:induction false} ResolveIff(t: Node, p: seq<int>, q: seq<nat>)
    ensures Resolve(t, p) == Ok(q) <==> Follows(t, p, q)
    decreases |p|
  {
    if Follows(t, p, q) && |p| > 0 {
      assert q[..0] == [];
      var i := q[0];
      var c := t.children[i];
      assert Follows(c, p[1..], q[1..]) by {
        forall k | 0 <= k < |p| - 1
          ensures ValidPath(c, q[1..][..k]) && PyIndex(p[1..][k], |At(c, q[1..][..k]).children|) == Some(q[1..][k])
        {
          assert q[..k + 1] == [i] + q[1..][..k];
          UnderChild(t, i, q[1..][..k]);
        }
      }
      ResolveIff(c, p[1..], q[1..]);
      assert [i] + q[1..] == q;
    }
  }

  /** `get_node`: the node `p` leads to, or IndexError when an index is out
      of range. */
  function GetNode(t: Node, p: seq<int>): (r: Result<Node, IndexError>)
    ensures |p| == 0 ==> r == Ok(t)
    ensures r.Err? <==> Resolve(t, p).Err?
    ensures forall q :: Follows(t, p, q) ==> ValidPath(t, q) && r == Ok(At(t, q))
  {
    forall q | Follows(t, p, q)
      ensures Resolve(t, p) == Ok(q)
    {
      ResolveIff(t, p, q);
    }
    match Resolve(t, p)
    case Err(e) => Err(e)
    case Ok(q) => Ok(At(t, q))
  }

  /** A node's own path leads back to it: `get_node(root, n.path)` is `n`. */
  lemma {:induction false} ResolveOwnPath(t: Node, q: seq<nat>)
    requires ValidPath(t, q)
    ensures Resolve(t, q) == Ok(q)
    ensures GetNode(t, q) == Ok(At(t, q))
    decreases |q|
  {
    if |q| > 0 {
      ResolveOwnPath(t.children[q[0]], q[1..]);
      assert [q[0]] + q[1..] == q;
    }
  }

  /** A path one step longer reaches a child of the node at the shorter
      path: a node's path is its parent's path plus its index there. */
  lemma {:induction false} PathOfChild(t: Node, q: seq<nat>, i: nat)
    requires ValidPath(t, q) && i < |At(t, q).children|
    ensures ValidPath(t, q + [i])
    ensures At(t, q + [i]) == At(t, q).children[i]
    decreases |q|
  {
    if |q| > 0 {
      assert (q + [i])[1..] == q[1..] + [i];
      PathOfChild(t.children[q[0]], q[1..], i);
    } else {
      assert q + [i] == [i];
      assert [i][1..] == [];
    }
  }

  /** The parent of the node at a non-empty path is the node at the path
      without its last index. */
  lemma ParentPath(t: Node, q: seq<nat>)
    requires ValidPath(t, q) && |q| > 0
    ensures ValidPath(t, q[..|q| - 1])
    ensures q[|q| - 1] < |At(t, q[..|q| - 1]).children|
    ensures At(t, q) == At(t, q[..|q| - 1]).children[q[|q| - 1]]
  {
    var parent := q[..|q| - 1];
    PrefixValid(t, q, |q| - 1);
    assert q == parent + [q[|q| - 1]];
    LastIndexValid(t, parent, q[|q| - 1]);
    PathOfChild(t, parent, q[|q| - 1]);
  }

  lemma {:induction false} PrefixValid(t: Node, q: seq<nat>, n: nat)
    requires ValidPath(t, q) && n <= |q|
    ensures ValidPath(t, q[..n])
    decreases |q|
  {
    if n > 0 {
      PrefixValid(t.children[q[0]], q[1..], n - 1);
      assert q[..n][1..] == q[1..][..n - 1];
    }
  }

  lemma {:induction false} LastIndexValid(t: Node, q: seq<nat>, i: nat)
    requires ValidPath(t, q + [i])
    ensures ValidPath(t, q) && i < |At(t, q).children|
    decreases |q|
  {
    if |q| > 0 {
      assert (q + [i])[1..] == q[1..] + [i];
      LastIndexValid(t.children[q[0]], q[1..], i);
    } else {
      assert q + [i] == [i];
    }
  }

  // ---- append and clear ----

  /** `append`: the new node becomes the last child. */
  function Append(t: Node, child: Node): (r: Node)
    ensures r.name == t.name
    ensures |r.children| == |t.children| + 1
    ensures r.children[..|t.children|] == t.children
    ensures r.children[|t.children|] == child
  {
    t.(children := t.children + [child])
  }

  /** The appended node sits at its parent's path plus its new index, and
      every node that was below the parent before keeps its path and its
      contents. */
  lemma AppendPath(t: Node, child: Node)
    ensures GetNode(Append(t, child), [|t.children|]) == Ok(child)
    ensures forall q: seq<nat> :: ValidPath(t, q) && q != [] ==>
      ValidPath(Append(t, child), q) && At(Append(t, child), q) == At(t, q)
  {
    var a := Append(t, child);
    ResolveOwnPath(a, [|t.children|]);
    assert [|t.children|][1..] == [];
    forall q: seq<nat> | ValidPath(t, q) && q != []
      ensures ValidPath(a, q) && At(a, q) == At(t, q)
    {
      var c := t.children[q[0]];
      assert q[0] < |a.children| && a.children[q[0]] == c;
      assert At(a, q) == At(c, q[1..]);
    }
  }

  /** `clear`: the node loses all its children. */
  function Clear(t: Node): (r: Node)
    ensures r.name == t.name && r.children == []
    ensures forall q: seq<nat> :: ValidPath(r, q) <==> q == []
  {
    t.(children := [])
  }

  // ---- findall and find ----

  /** `q` comes before `q2` in preorder: a proper prefix, or smaller at the
      first index where they differ. */
  predicate Before(q: seq<nat>, q2: seq<nat>) {
    (|q| < |q2| && q == q2[..|q|])
    || exists k :: 0 <= k < |q| && k < |q2| && q[..k] == q2[..k] && q[k] < q2[k]
  }

  predicate InPreorder(qs: seq<seq<nat>>) {
    forall i, j :: 0 <= i < j < |qs| ==> Before(qs[i], qs[j])
  }

  /** The paths `ps`, each put under child `i`. */
  function Under(i: nat, ps: seq<seq<nat>>): (r: seq<seq<nat>>)
    ensures |r| == |ps|
    ensures forall k :: 0 <= k < |r| ==> r[k] == [i] + ps[k]
  {
    seq(|ps|, k requires 0 <= k < |ps| => [i] + ps[k])
  }

  lemma UnderKeepsOrder(i: nat, ps: seq<seq<nat>>)
    requires InPreorder(ps)
    ensures InPreorder(Under(i, ps))
  {
    var r := Under(i, ps);
    forall a, b | 0 <= a < b < |r|
      ensures Before(r[a], r[b])
    {
      var p, p2 := ps[a], ps[b];
      assert Before(p, p2);
      if |p| < |p2| && p == p2[..|p|] {
        assert r[a] == r[b][..|r[a]|];
      } else {
        var k :| 0 <= k < |p| && k < |p2| && p[..k] == p2[..k] && p[k] < p2[k];
        assert r[a][..k + 1] == [i] + p[..k];
        assert r[b][..k + 1] == [i] + p2[..k];
        assert r[a][k + 1] == p[k] && r[b][k + 1] == p2[k];
      }
    }
  }

  lemma ConcatInPreorder(a: seq<seq<nat>>, b: seq<seq<nat>>)
    requires InPreorder(a) && InPreorder(b)
    requires forall i, j :: 0 <= i < |a| && 0 <= j < |b| ==> Before(a[i], b[j])
    ensures InPreorder(a + b)
  {
  }

  /** The matching nodes of `t` below child `i` onwards, as paths from `t`. */
  function FindInChildren(t: Node, pred: Node -> bool, i: nat): (r: seq<seq<nat>>)
    ensures forall k :: 0 <= k < |r| ==>
      && |r[k]| >= 1 && i <= r[k][0] < |t.children|
      && ValidPath(t, r[k]) && pred(At(t, r[k]))
    ensures InPreorder(r)
    decreases t, 0, |t.children| - i
  {
    if i >= |t.children| then []
    else
      var here := FindAll(t.children[i], pred, true);
      var mine := Under(i, here);
      var rest := FindInChildren(t, pred, i + 1);
      UnderKeepsOrder(i, here);
      forall k | 0 <= k < |mine|
        ensures ValidPath(t, mine[k]) && pred(At(t, mine[k]))
      {
        assert mine[k][1..] == here[k];
      }
      forall a, b | 0 <= a < |mine| && 0 <= b < |rest|
        ensures Before(mine[a], rest[b])
      {
        assert mine[a][..0] == rest[b][..0];
      }
      ConcatInPreorder(mine, rest);
      mine + rest
  }

  /** `findall`: the paths of the matching nodes in preorder, the node
      itself (path []) included only when `includeSelf` is set. */
  function FindAll(t: Node, pred: Node -> bool, includeSelf: bool): (r: seq<seq<nat>>)
    ensures forall k :: 0 <= k < |r| ==> ValidPath(t, r[k]) && pred(At(t, r[k]))
    ensures forall k :: 0 <= k < |r| && r[k] == [] ==> includeSelf
    ensures InPreorder(r)
    decreases t, 1, 0
  {
    var self: seq<seq<nat>> := if includeSelf && pred(t) then [[]] else [];
    var below := FindInChildren(t, pred, 0);
    assert forall a, b :: 0 <= a < |self| && 0 <= b < |below| ==> Before(self[a], below[b]);
    ConcatInPreorder(self, below);
    self + below
  }

  /** Every matching node is found: `findall` misses nothing. */
  lemma {:induction false} FindAllComplete(t: Node, pred: Node -> bool, includeSelf: bool, q: seq<nat>)
    requires ValidPath(t, q) && pred(At(t, q))
    requires q != [] || includeSelf
    ensures q in FindAll(t, pred, includeSelf)
    decreases t, 1
  {
    if |q| > 0 {
      FindInChildrenComplete(t, pred, 0, q);
    }
  }

  lemma {:induction false} FindInChildrenComplete(t: Node, pred: Node -> bool, i: nat, q: seq<nat>)
    requires ValidPath(t, q) && pred(At(t, q))
    requires |q| >= 1 && i <= q[0]
    ensures q in FindInChildren(t, pred, i)
    decreases t, 0, |t.children| - i
  {
    var here := FindAll(t.children[i], pred, true);
    var mine := Under(i, here);
    if q[0] == i {
      FindAllComplete(t.children[i], pred, true, q[1..]);
      var k :| 0 <= k < |here| && here[k] == q[1..];
      assert mine[k] == q;
    } else {
      FindInChildrenComplete(t, pred, i + 1, q);
    }
  }

  /** `find`: the first match in preorder, or None when nothing matches. */
  function Find(t: Node, pred: Node -> bool, includeSelf: bool): (r: Option<seq<nat>>)
    ensures r.Some? ==> ValidPath(t, r.value) && pred(At(t, r.value))
    ensures r.Some? && r.value == [] ==> includeSelf
    ensures r.None? ==> forall q: seq<nat> :: ValidPath(t, q) && (q != [] || includeSelf) ==> !pred(At(t, q))
  {
    var all := FindAll(t, pred, includeSelf);
    if |all| == 0 then
      assert forall q: seq<nat> :: ValidPath(t, q) && (q != [] || includeSelf) ==> !pred(At(t, q)) by {
        forall q: seq<nat> | ValidPath(t, q) && (q != [] || includeSelf) && pred(At(t, q))
          ensures false
        {
          FindAllComplete(t, pred, includeSelf, q);
        }
      }
      None
    else Some(all[0])
  }

  /** The node `find` returns precedes every other match in preorder. */
  lemma FindIsFirst(t: Node, pred: Node -> bool, includeSelf: bool, q: seq<nat>)
    requires ValidPath(t, q) && pred(At(t, q)) && (q != [] || includeSelf)
    ensures Find(t, pred, includeSelf).Some?
    ensures Find(t, pred, includeSelf).value == q || Before(Find(t, pred, includeSelf).value, q)
  {
    FindAllComplete(t, pred, includeSelf, q);
  }

  // ---- the tree and its selection ----

  /** A `Tree`: the root node and the paths of the selected nodes. */
  datatype TreeState = TreeState(root: Node, selected: seq<seq<nat>>)

  predicate ValidSelection(ts: TreeState) {
    forall k :: 0 <= k < |ts.selected| ==> ValidPath(ts.root, ts.selected[k])
  }

  /** A new tree: an unnamed root without children or selection. */
  function NewTree(): (ts: TreeState)
    ensures ts.root.children == [] && ts.selected == []
  {
    TreeState(Node("", []), [])
  }

  /** `Tree.clear`: the selection and the children are both emptied. */
  function ClearTree(ts: TreeState): (r: TreeState)
    ensures r.root == Clear(ts.root) && r.selected == []
    ensures ValidSelection(r)
  {
    TreeState(Clear(ts.root), [])
  }

  /** `selected_node` (as the selected node's path): the first selected node, if any. */
  function SelectedNode(ts: TreeState): (r: Option<seq<nat>>)
    ensures r.None? <==> ts.selected == []
    ensures r.Some? ==> r.value == ts.selected[0]
  {
    if |ts.selected| > 0 then Some(ts.selected[0]) else None
  }

  /** The `selected_node` setter: a node selects just that node, None clears. */
  function SetSelectedNode(ts: TreeState, node: Option<seq<nat>>): (r: TreeState)
    ensures r.root == ts.root
    ensures SelectedNode(r) == node
    ensures node.None? ==> r.selected == []
    ensures node.Some? ==> r.selected == [node.value]
  {
    ts.(selected := if node.Some? then [node.value] else [])
  }

  /** The `selected_nodes` setter. */
  function SetSelectedNodes(ts: TreeState, nodes: seq<seq<nat>>): (r: TreeState)
    ensures r.root == ts.root && r.selected == nodes
  {
    ts.(selected := nodes)
  }

  /** After the `selected_nodes` setter, `selected_node` is the first of the
      given nodes (None for none), and `selected_paths` reads back the
      paths of exactly those nodes, in order. */
  lemma SetSelectedNodesReadBack(ts: TreeState, nodes: seq<seq<nat>>)
    requires forall k :: 0 <= k < |nodes| ==> ValidPath(ts.root, nodes[k])
    ensures SelectedNode(SetSelectedNodes(ts, nodes)) == (if |nodes| > 0 then Some(nodes[0]) else None)
    ensures ValidSelection(SetSelectedNodes(ts, nodes))
    ensures var r := SetSelectedNodes(ts, nodes);
      forall k :: 0 <= k < |nodes| ==> GetNode(ts.root, SelectedPaths(r)[k]) == Ok(At(ts.root, nodes[k]))
  {
  }

  /** The paths among `ps` that resolve in `t`, resolved, in order. */
  function ResolveAll(t: Node, ps: seq<seq<int>>): (r: seq<seq<nat>>)
    ensures |r| <= |ps|
    ensures forall k :: 0 <= k < |r| ==> ValidPath(t, r[k])
  {
    if |ps| == 0 then []
    else
      var init := ResolveAll(t, ps[..|ps| - 1]);
      match Resolve(t, ps[|ps| - 1])
      case Ok(q) => init + [q]
      case Err(_) => init
  }

  /** Paths that are already node paths resolve to themselves. */
  lemma {:induction false} ResolveAllOwnPaths(t: Node, qs: seq<seq<nat>>)
    requires forall k :: 0 <= k < |qs| ==> ValidPath(t, qs[k])
    ensures ResolveAll(t, qs) == qs
  {
    if |qs| > 0 {
      ResolveAllOwnPaths(t, qs[..|qs| - 1]);
      ResolveOwnPath(t, qs[|qs| - 1]);
      assert qs == qs[..|qs| - 1] + [qs[|qs| - 1]];
    }
  }

  /** Every path that does not resolve is skipped. */
  lemma {:induction false} ResolveAllSkipsInvalid(t: Node, ps: seq<seq<int>>)
    requires forall k :: 0 <= k < |ps| ==> Resolve(t, ps[k]).Err?
    ensures ResolveAll(t, ps) == []
  {
    if |ps| > 0 {
      ResolveAllSkipsInvalid(t, ps[..|ps| - 1]);
    }
  }

  /** The `selected_paths` setter: the nodes at the paths that resolve, in
      order; a path that raises IndexError is silently skipped. */
  method SetSelectedPaths(ts: TreeState, paths: seq<seq<int>>) returns (r: TreeState)
    ensures r.root == ts.root
    ensures r.selected == ResolveAll(ts.root, paths)
    ensures ValidSelection(r)
    ensures (forall k :: 0 <= k < |paths| ==> Resolve(ts.root, paths[k]).Ok?) ==> |r.selected| == |paths|
  {
    var nodes: seq<seq<nat>> := [];
    var i := 0;
    while i < |paths|
      invariant 0 <= i <= |paths|
      invariant nodes == ResolveAll(ts.root, paths[..i])
      invariant (forall k :: 0 <= k < i ==> Resolve(ts.root, paths[k]).Ok?) ==> |nodes| == i
    {
      assert paths[..i + 1][..i] == paths[..i];
      var resolved := Resolve(ts.root, paths[i]);
      if resolved.Ok? {
        nodes := nodes + [resolved.value];
      }
      i := i + 1;
    }
    assert paths[..i] == paths;
    r := ts.(selected := nodes);
  }

  /** `selected_paths`: the paths of the selected nodes. */
  function SelectedPaths(ts: TreeState): (r: seq<seq<nat>>)
    requires ValidSelection(ts)
    ensures |r| == |ts.selected|
    ensures forall k :: 0 <= k < |r| ==> GetNode(ts.root, r[k]) == Ok(At(ts.root, ts.selected[k]))
  {
    forall k | 0 <= k < |ts.selected|
      ensures GetNode(ts.root, ts.selected[k]) == Ok(At(ts.root, ts.selected[k]))
    {
      ResolveOwnPath(ts.root, ts.selected[k]);
    }
    ts.selected
  }

  /** `selected_path`: the path of the selected node, or None. */
  function SelectedPath(ts: TreeState): (r: Option<seq<nat>>)
    requires ValidSelection(ts)
    ensures r.None? <==> ts.selected == []
    ensures r.Some? ==> r.value == SelectedPaths(ts)[0]
  {
    match SelectedNode(ts)
    case None => None
    case Some(q) => Some(q)
  }

  /** The `selected_path` setter: a path selects just the node there (or
      nothing if it does not resolve); None clears the selection. */
  method SetSelectedPath(ts: TreeState, path: Option<seq<int>>) returns (r: TreeState)
    ensures r.root == ts.root
    ensures path.None? ==> r.selected == []
    ensures path.Some? && Resolve(ts.root, path.value).Ok? ==> r.selected == [Resolve(ts.root, path.value).value]
    ensures path.Some? && Resolve(ts.root, path.value).Err? ==> r.selected == []
  {
    if path.Some? {
      assert [path.value][..0] == [];
      r := SetSelectedPaths(ts, [path.value]);
    } else {
      r := ts.(selected := []);
    }
  }

  /** Reading the selected paths and setting them again leaves the
      selection as it was. */
  lemma SelectionRoundTrip(ts: TreeState)
    requires ValidSelection(ts)
    ensures ResolveAll(ts.root, SelectedPaths(ts)) == ts.selected
  {
    ResolveAllOwnPaths(ts.root, ts.selected);
  }
}
