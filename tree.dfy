/**
 * Addressing inside a block tree: the element a path leads to, `push` onto
 * the stack of the block at a path, and `list_fuzzable_mutants`, which lists
 * the fuzzable mutants of a block, nested blocks included, in stack order.
 * Each element is named by its path from the block it is listed in.
 */
module Tree {
  import opened Common
  import opened Mutants
  import opened Blocks
  import Rendering

  /** The name an element was built with (a block may have none: ""). */
  function NodeName(n: Node): string
  {
    if n.Leaf? then n.m.name else n.settings.name
  }

  /** The element at path `p` below `n`, if there is one. */
  function NodeAt(n: Node, p: Path): (r: Option<Node>)
    ensures p == [] ==> r == Some(n)
    ensures p != [] && n.Leaf? ==> r.None?
    decreases |p|
  {
    if p == [] then Some(n)
    else match n
      case Leaf(_) => None
      case Composite(_, _, _, stack) => if p[0] < |stack| then NodeAt(stack[p[0]], p[1..]) else None
  }

  /** There is a block at `p`. */
  predicate IsBlockAt(n: Node, p: Path)
  {
    NodeAt(n, p).Some? && NodeAt(n, p).value.Composite?
  }

  /** There is a fuzzable mutant at `p`. */
  predicate IsFuzzableLeafAt(n: Node, p: Path)
  {
    NodeAt(n, p).Some? && NodeAt(n, p).value.Leaf? && NodeAt(n, p).value.m.fuzzable
  }

  /** A path through the block at stack position i. */
  lemma NodeAtStep(n: Node, i: nat, q: Path)
    requires n.Composite? && i < |n.stack|
    ensures NodeAt(n, [i] + q) == NodeAt(n.stack[i], q)
  {
    assert ([i] + q)[1..] == q;
  }

  /** `push(item)` on the block at `p`: the item is appended to its stack. */
  function AppendAt(n: Node, p: Path, item: Node): (r: Node)
    requires IsBlockAt(n, p)
    ensures r.Composite? && NodeName(r) == NodeName(n) && r.settings == n.settings
    decreases |p|
  {
    if p == [] then n.(stack := n.stack + [item])
    else n.(stack := n.stack[p[0] := AppendAt(n.stack[p[0]], p[1..], item)])
  }

  /** The pushed item sits at the end of that block's stack. */
  lemma {:induction false} AppendPlaces(n: Node, p: Path, item: Node)
    requires IsBlockAt(n, p)
    ensures NodeAt(AppendAt(n, p, item), p + [|NodeAt(n, p).value.stack|]) == Some(item)
    decreases |p|
  {
    var k := |NodeAt(n, p).value.stack|;
    if p == [] {
      assert ([] + [k])[1..] == [];
    } else {
      AppendPlaces(n.stack[p[0]], p[1..], item);
      assert (p + [k])[0] == p[0] && (p + [k])[1..] == p[1..] + [k];
    }
  }

  /** Every element reachable before the push is still reachable at the same
      path with the same name and kind; an element off the path to the target
      block is untouched. */
  lemma {:induction false} AppendKeeps(n: Node, p: Path, item: Node, q: Path)
    requires IsBlockAt(n, p) && NodeAt(n, q).Some?
    ensures var r := NodeAt(AppendAt(n, p, item), q);
      && r.Some? && NodeName(r.value) == NodeName(NodeAt(n, q).value)
      && r.value.Composite? == NodeAt(n, q).value.Composite?
    ensures !(q <= p) ==> NodeAt(AppendAt(n, p, item), q) == NodeAt(n, q)
    decreases |p|
  {
    if q != [] && p != [] && q[0] == p[0] {
      AppendKeeps(n.stack[p[0]], p[1..], item, q[1..]);
      if !(q <= p) {
        assert !(q[1..] <= p[1..]);
      }
    }
  }

  /** Pushing keeps every mutant in a state its methods keep. */
  lemma {:induction false} AppendWF(n: Node, p: Path, item: Node)
    requires IsBlockAt(n, p) && WF(n) && WF(item)
    ensures WF(AppendAt(n, p, item))
    decreases |p|
  {
    if p != [] {
      AppendWF(n.stack[p[0]], p[1..], item);
    }
  }

  /** Every registered name leads to an element of that name, and every
      open block is a block of the tree. */
  predicate Registered(root: Node, names: map<string, Path>, open: seq<Path>)
  {
    && (forall name | name in names ::
          NodeAt(root, names[name]).Some? && NodeName(NodeAt(root, names[name]).value) == name)
    && (forall i | 0 <= i < |open| :: IsBlockAt(root, open[i]))
  }

  /** `push(item)` onto the block at `p` keeps the registry: the old names
      and open blocks are where they were, the item's name (if any) leads
      to the item, and a pushed block is a block. */
  lemma AppendRegistered(root: Node, names: map<string, Path>, open: seq<Path>, p: Path, item: Node)
    requires Registered(root, names, open) && IsBlockAt(root, p)
    ensures var at := p + [|NodeAt(root, p).value.stack|];
      Registered(AppendAt(root, p, item),
                 if NodeName(item) != "" then names[NodeName(item) := at] else names,
                 if item.Composite? then open + [at] else open)
  {
    var root' := AppendAt(root, p, item);
    AppendPlaces(root, p, item);
    forall name | name in names
      ensures NodeAt(root', names[name]).Some? && NodeName(NodeAt(root', names[name]).value) == name
    {
      AppendKeeps(root, p, item, names[name]);
    }
    forall i | 0 <= i < |open|
      ensures IsBlockAt(root', open[i])
    {
      AppendKeeps(root, p, item, open[i]);
    }
  }

  /** The count a stack item contributes to its block. */
  function Contribution(c: Node): nat
  {
    if IsFuzzable(c) then Blocks.NumMutations(c) else 0
  }

  /** Replacing item i changes the running sums past i by the difference of
      the contributions. */
  lemma {:induction false} PreReplace(s: seq<Node>, i: nat, x: Node, j: nat)
    requires i < |s| && j <= |s|
    ensures Pre(s[i := x], j) + (if i < j then Contribution(s[i]) else 0)
         == Pre(s, j) + (if i < j then Contribution(x) else 0)
  {
    if j > 0 {
      PreReplace(s, i, x, j - 1);
    }
  }

  /** Appending an item leaves the earlier running sums alone. */
  lemma {:induction false} PreAppend(s: seq<Node>, x: Node, j: nat)
    requires j <= |s|
    ensures Pre(s + [x], j) == Pre(s, j)
  {
    if j > 0 {
      PreAppend(s, x, j - 1);
      assert (s + [x])[j - 1] == s[j - 1];
    }
  }

  /** A push adds the item's mutations to every enclosing block's count. */
  lemma {:induction false} AppendCounts(n: Node, p: Path, item: Node)
    requires IsBlockAt(n, p)
    ensures Blocks.NumMutations(AppendAt(n, p, item)) == Blocks.NumMutations(n) + Contribution(item)
    decreases |p|
  {
    var s := n.stack;
    if p == [] {
      PreAppend(s, item, |s|);
      assert (s + [item])[|s|] == item;
    } else {
      AppendCounts(s[p[0]], p[1..], item);
      PreReplace(s, p[0], AppendAt(s[p[0]], p[1..], item), |s|);
    }
  }

  /** `list_fuzzable_mutants()`: nested blocks are listed through, mutants
      are kept when fuzzable. A mutant on its own lists nothing. */
  function FuzzableLeaves(n: Node): seq<Path>
    decreases n, 1
  {
    match n
    case Leaf(_) => []
    case Composite(_, _, _, stack) => FuzzableIn(stack, |stack|)
  }

  /** The list built from the first j items. */
  function FuzzableIn(s: seq<Node>, j: nat): seq<Path>
    requires j <= |s|
    decreases s, 0, j
  {
    if j == 0 then []
    else
      FuzzableIn(s, j - 1) +
      (match s[j - 1]
       case Composite(_, _, _, _) => Under(j - 1, FuzzableLeaves(s[j - 1]))
       case Leaf(m) => if m.fuzzable then [[j - 1]] else [])
  }

  /** Paths seen from one level up, through stack position i. */
  function Under(i: nat, ps: seq<Path>): (r: seq<Path>)
    ensures |r| == |ps| && forall k :: 0 <= k < |r| ==> r[k] == [i] + ps[k]
  {
    seq(|ps|, k requires 0 <= k < |ps| => [i] + ps[k])
  }

  /** The list holds exactly the paths to fuzzable mutants. */
  lemma {:induction false} FuzzableLeavesExact(n: Node, p: Path)
    requires n.Composite?
    ensures p in FuzzableLeaves(n) <==> IsFuzzableLeafAt(n, p)
    decreases n, 1
  {
    FuzzableInExact(n.stack, |n.stack|, p);
    if |p| > 0 && p[0] < |n.stack| {
      NodeAtStep(n, p[0], p[1..]);
      assert [p[0]] + p[1..] == p;
    }
  }

  lemma {:induction false} FuzzableInExact(s: seq<Node>, j: nat, p: Path)
    requires j <= |s|
    ensures p in FuzzableIn(s, j) <==> |p| > 0 && p[0] < j && IsFuzzableLeafAt(s[p[0]], p[1..])
    decreases s, 0, j
  {
    if j > 0 {
      FuzzableInExact(s, j - 1, p);
      var c := s[j - 1];
      if c.Composite? {
        assert FuzzableIn(s, j) == FuzzableIn(s, j - 1) + Under(j - 1, FuzzableLeaves(c));
        UnderMember(j - 1, FuzzableLeaves(c), p);
        if |p| > 0 && p[0] == j - 1 {
          FuzzableLeavesExact(c, p[1..]);
        }
      } else if |p| > 0 && p[0] == j - 1 && p[1..] == [] {
        assert p == [j - 1];
      }
    }
  }

  /** A path seen through position i is i followed by a path of the list. */
  lemma UnderMember(i: nat, ps: seq<Path>, p: Path)
    ensures p in Under(i, ps) <==> |p| > 0 && p[0] == i && p[1..] in ps
  {
    var back := Under(i, ps);
    if p in back {
      var k :| 0 <= k < |back| && back[k] == p;
      assert p[1..] == ps[k];
    }
    if |p| > 0 && p[0] == i && p[1..] in ps {
      var k :| 0 <= k < |ps| && ps[k] == p[1..];
      assert back[k] == [p[0]] + p[1..] == p;
    }
  }

  /** Paths in strictly increasing order: the list follows the stack order,
      depth first, with no path twice. */
  predicate Ordered(ps: seq<Path>)
  {
    forall a, b :: 0 <= a < b < |ps| ==> Rendering.LexLt(ps[a], ps[b])
  }

  /** Preceding both paths by the same position keeps their order. */
  lemma UnderOrdered(i: nat, ps: seq<Path>)
    requires Ordered(ps)
    ensures Ordered(Under(i, ps))
  {
    var r := Under(i, ps);
    forall a, b | 0 <= a < b < |r|
      ensures Rendering.LexLt(r[a], r[b])
    {
      assert r[a][1..] == ps[a] && r[b][1..] == ps[b];
    }
  }

  /** `list_fuzzable_mutants()` lists the mutants in stack order, nested
      blocks in place, each once. */
  lemma {:induction false} FuzzableLeavesOrdered(n: Node)
    ensures Ordered(FuzzableLeaves(n))
    decreases n, 1
  {
    if n.Composite? {
      FuzzableInOrdered(n.stack, |n.stack|);
    }
  }

  lemma {:induction false} FuzzableInOrdered(s: seq<Node>, j: nat)
    requires j <= |s|
    ensures Ordered(FuzzableIn(s, j))
    ensures forall k :: 0 <= k < |FuzzableIn(s, j)| ==> |FuzzableIn(s, j)[k]| > 0 && FuzzableIn(s, j)[k][0] < j
    decreases s, 0, j
  {
    if j > 0 {
      FuzzableInOrdered(s, j - 1);
      var front := FuzzableIn(s, j - 1);
      var c := s[j - 1];
      var back := if c.Composite? then Under(j - 1, FuzzableLeaves(c)) else if c.m.fuzzable then [[j - 1]] else [];
      if c.Composite? {
        FuzzableLeavesOrdered(c);
        UnderOrdered(j - 1, FuzzableLeaves(c));
      }
      assert forall k :: 0 <= k < |back| ==> |back[k]| > 0 && back[k][0] == j - 1;
      assert FuzzableIn(s, j) == front + back;
    }
  }

  /** The own `num_mutations` of the mutants at the paths `ps` below `n`,
      summed (a path that leads to no mutant adds nothing). */
  function LeafCounts(n: Node, ps: seq<Path>): nat
  {
    if ps == [] then 0
    else
      LeafCounts(n, ps[..|ps| - 1]) +
      (match NodeAt(n, ps[|ps| - 1]) case Some(Leaf(m)) => Mutants.NumMutations(m) case _ => 0)
  }

  lemma {:induction false} LeafCountsAppend(n: Node, a: seq<Path>, b: seq<Path>)
    ensures LeafCounts(n, a + b) == LeafCounts(n, a) + LeafCounts(n, b)
    decreases |b|
  {
    if b != [] {
      assert (a + b)[..|a + b| - 1] == a + b[..|b| - 1];
      LeafCountsAppend(n, a, b[..|b| - 1]);
    } else {
      assert a + b == a;
    }
  }

  /** Paths seen through stack position i count what they count below it. */
  lemma {:induction false} LeafCountsUnder(n: Node, i: nat, ps: seq<Path>)
    requires n.Composite? && i < |n.stack|
    ensures LeafCounts(n, Under(i, ps)) == LeafCounts(n.stack[i], ps)
    decreases |ps|
  {
    if ps != [] {
      var last := |ps| - 1;
      assert Under(i, ps)[..last] == Under(i, ps[..last]);
      LeafCountsUnder(n, i, ps[..last]);
      NodeAtStep(n, i, ps[last]);
    }
  }

  /** A block's `num_mutations` is the sum, over the mutants
      `list_fuzzable_mutants` lists, of each mutant's own `num_mutations`. */
  lemma {:induction false} CountIsLeafSum(n: Node)
    requires n.Composite?
    ensures Blocks.NumMutations(n) == LeafCounts(n, FuzzableLeaves(n))
    decreases n, 1
  {
    PreIsLeafSum(n, |n.stack|);
  }

  lemma {:induction false} PreIsLeafSum(n: Node, j: nat)
    requires n.Composite? && j <= |n.stack|
    ensures Pre(n.stack, j) == LeafCounts(n, FuzzableIn(n.stack, j))
    decreases n, 0, j
  {
    if j == 0 {
      assert FuzzableIn(n.stack, 0) == [];
    } else {
      PreIsLeafSum(n, j - 1);
      ItemLeafCounts(n, j);
      assert Pre(n.stack, j) == Pre(n.stack, j - 1) + Contribution(n.stack[j - 1]);
    }
  }

  /** What one item adds to the list counts what it adds to the total. */
  lemma ItemLeafCounts(n: Node, j: nat)
    requires n.Composite? && 0 < j <= |n.stack|
    ensures LeafCounts(n, FuzzableIn(n.stack, j)) ==
      LeafCounts(n, FuzzableIn(n.stack, j - 1)) + Contribution(n.stack[j - 1])
    decreases n, 0, 0
  {
    if n.stack[j - 1].Composite? {
      BlockItemCounts(n, j);
    } else {
      LeafItemCounts(n, j);
    }
  }

  lemma BlockItemCounts(n: Node, j: nat)
    requires n.Composite? && 0 < j <= |n.stack| && n.stack[j - 1].Composite?
    ensures LeafCounts(n, FuzzableIn(n.stack, j)) ==
      LeafCounts(n, FuzzableIn(n.stack, j - 1)) + Contribution(n.stack[j - 1])
    decreases n, 0, 0, 0
  {
    var front := FuzzableIn(n.stack, j - 1);
    var c := n.stack[j - 1];
    var back := Under(j - 1, FuzzableLeaves(c));
    assert FuzzableIn(n.stack, j) == front + back;
    LeafCountsAppend(n, front, back);
    CountIsLeafSum(c);
    LeafCountsUnder(n, j - 1, FuzzableLeaves(c));
    assert IsFuzzable(c) && Contribution(c) == Blocks.NumMutations(c);
  }

  lemma LeafItemCounts(n: Node, j: nat)
    requires n.Composite? && 0 < j <= |n.stack| && n.stack[j - 1].Leaf?
    ensures LeafCounts(n, FuzzableIn(n.stack, j)) ==
      LeafCounts(n, FuzzableIn(n.stack, j - 1)) + Contribution(n.stack[j - 1])
  {
    var front := FuzzableIn(n.stack, j - 1);
    if n.stack[j - 1].m.fuzzable {
      assert FuzzableIn(n.stack, j) == front + [[j - 1]];
      LeafCountsAppend(n, front, [[j - 1]]);
      LeafCount(n, j - 1);
    } else {
      assert FuzzableIn(n.stack, j) == front + [];
      assert front + [] == front;
    }
  }

  /** A fuzzable mutant in the stack counts its own mutations. */
  lemma LeafCount(n: Node, i: nat)
    requires n.Composite? && i < |n.stack| && n.stack[i].Leaf?
    ensures LeafCounts(n, [[i]]) == Mutants.NumMutations(n.stack[i].m)
  {
    NodeAtStep(n, i, []);
    assert [i] + [] == [i];
    assert [[i]][..0] == [];
  }

  /** In a reset tree every mutant is at its original value. */
  lemma {:induction false} BaseLeavesReset(n: Node, q: Path)
    requires NodeAt(Base(n), q).Some? && NodeAt(Base(n), q).value.Leaf?
    ensures NodeAt(Base(n), q).value.m.index == 0
    decreases |q|
  {
    if q != [] {
      assert Base(n).stack[q[0]] == Base(n.stack[q[0]]);
      BaseLeavesReset(n.stack[q[0]], q[1..]);
    }
  }

  /** The path to the changed mutant is the path to the block followed by
      the path inside it. */
  lemma {:induction false} ActiveShift(t: Node, k: nat, at: Path)
    requires 0 < k <= Blocks.NumMutations(t)
    ensures Active(t, k, at) == at + Active(t, k, [])
    decreases t
  {
    if t.Composite? {
      var j := Owner(t.stack, k);
      var c := t.stack[j];
      var kc := k - Pre(t.stack, j);
      assert Active(t, k, at) == at + ([j] + Active(c, kc, [])) by {
        ActiveOwner(t, k, j, at);
        ActiveShift(c, kc, at + [j]);
      }
      assert Active(t, k, []) == [j] + Active(c, kc, []) by {
        ActiveOwner(t, k, j, []);
        assert [] + [j] == [j];
        ActiveShift(c, kc, [j]);
      }
    }
  }

  /** The mutant the k-th mutation changes is a fuzzable mutant of the tree:
      one that `list_fuzzable_mutants()` lists. */
  lemma {:induction false} ActiveIsListed(t: Node, k: nat)
    requires 0 < k <= Blocks.NumMutations(t)
    ensures IsFuzzableLeafAt(t, Active(t, k, []))
    ensures t.Composite? ==> Active(t, k, []) in FuzzableLeaves(t)
    decreases t
  {
    if t.Composite? {
      var j := Owner(t.stack, k);
      var c := t.stack[j];
      var kc := k - Pre(t.stack, j);
      assert 0 < kc <= Blocks.NumMutations(c) && Active(t, k, []) == [j] + Active(c, kc, []) by {
        ActiveOwner(t, k, j, []);
        assert [] + [j] == [j];
        ActiveShift(c, kc, [j]);
      }
      assert IsFuzzableLeafAt(t, Active(t, k, [])) by {
        NodeAtStep(t, j, Active(c, kc, []));
        ActiveIsListed(c, kc);
      }
      FuzzableLeavesExact(t, Active(t, k, []));
    }
  }

  /** Every state of the enumeration changes exactly one field: after the
      k-th mutation the mutant on the path `Active` is off its original (it
      holds a library entry), and every other mutant of the tree is at its
      original value. */
  lemma {:induction false} SingleFieldChanged(t: Node, k: nat, q: Path)
    requires 0 < k <= Blocks.NumMutations(t)
    requires NodeAt(At(t, k), q).Some? && NodeAt(At(t, k), q).value.Leaf?
    ensures q == Active(t, k, []) <==> NodeAt(At(t, k), q).value.m.index > 0
    decreases t
  {
    if t.Composite? {
      var j := Owner(t.stack, k);
      var c := t.stack[j];
      var kc := k - Pre(t.stack, j);
      var bs := BaseStack(t.stack);
      assert 0 < kc <= Blocks.NumMutations(c) && Active(t, k, []) == [j] + Active(c, kc, []) by {
        ActiveOwner(t, k, j, []);
        assert [] + [j] == [j];
        ActiveShift(c, kc, [j]);
      }
      assert At(t, k) == Composite(t.settings, k, Delegating(j), bs[j := At(c, kc)]) by {
        AtOwner(t, k, j);
      }
      var i := q[0];
      assert NodeAt(At(t, k), q) == NodeAt(At(t, k).stack[i], q[1..]);
      assert q == [i] + q[1..];
      if i == j {
        SingleFieldChanged(c, kc, q[1..]);
      } else {
        assert At(t, k).stack[i] == Base(t.stack[i]);
        BaseLeavesReset(t.stack[i], q[1..]);
      }
    }
  }

  /** Resetting keeps every element where it is, reset. */
  lemma {:induction false} NodeAtBase(n: Node, q: Path)
    ensures NodeAt(Base(n), q) == if NodeAt(n, q).Some? then Some(Base(NodeAt(n, q).value)) else None
    decreases |q|
  {
    if q != [] && n.Composite? && q[0] < |n.stack| {
      assert Base(n).stack[q[0]] == Base(n.stack[q[0]]);
      NodeAtBase(n.stack[q[0]], q[1..]);
    }
  }

  /** Two trees with the same reset form have the same paths, and the same
      name and kind at each. */
  lemma SameShape(x: Node, y: Node, q: Path)
    requires Base(x) == Base(y)
    ensures NodeAt(x, q).Some? == NodeAt(y, q).Some?
    ensures NodeAt(x, q).Some? ==>
      NodeName(NodeAt(x, q).value) == NodeName(NodeAt(y, q).value)
      && NodeAt(x, q).value.Composite? == NodeAt(y, q).value.Composite?
  {
    NodeAtBase(x, q);
    NodeAtBase(y, q);
  }
}
