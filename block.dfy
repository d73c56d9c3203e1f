/**
 * The composite of the mutation engine: a Block holds a stack of children
 * (mutants or nested blocks), counts their mutations, renders them in order,
 * and enumerates every single-field mutation of the whole block by fully
 * delegating to each fuzzable child in stack order.
 *
 * A tree of blocks is a value here. The Python generators that drive the
 * enumeration are replaced by an explicit cursor: every block records whether
 * its generator is fresh or suspended inside the child it delegates to, and
 * `Step` is one `next()` on that generator. Object identity is replaced by
 * paths from the root (lists of stack positions).
 */
module Blocks {
  import opened Common
  import opened Mutants

  /** `dep_compare`: the six operators the gate knows; any other string
      matches none of its tests. */
  datatype Comparator = Eq | Ne | Gt | Ge | Lt | Le | Other

  /** A block's own generator: not started, or suspended after a yield while
      delegating to the child at that stack position. */
  datatype Gen = Fresh | Delegating(child: nat)

  /** Stack positions from an ancestor down to a node. */
  type Path = seq<nat>

  /** What a block is built with: its name, encoder, and dependency gate
      (`dep` is "" when there is none; `dep_values=None` is the empty list). */
  datatype Settings = Settings(name: string, encoder: Option<bytes -> bytes>, dep: string,
                               compare: Comparator, depValue: Option<Value>, depValues: seq<Value>)

  /** A tree element: a mutant, or a block with its settings, its
      `_mutant_index`, its generator and its stack. */
  datatype Node =
    | Leaf(m: MutantState)
    | Composite(settings: Settings, index: nat, gen: Gen, stack: seq<Node>)

  /** The `fuzzable` property: a block is always fuzzable. */
  predicate IsFuzzable(n: Node)
  {
    n.Leaf? ==> n.m.fuzzable
  }

  /** `num_mutations`; for a block, the sum over its fuzzable children. */
  function NumMutations(n: Node): nat
  {
    match n
    case Leaf(m) => Mutants.NumMutations(m)
    case Composite(_, _, _, stack) => Pre(stack, |stack|)
  }

  /** The sum of `num_mutations` over the fuzzable items among the first j. */
  function Pre(s: seq<Node>, j: nat): nat
    requires j <= |s|
  {
    if j == 0 then 0
    else Pre(s, j - 1) + (if IsFuzzable(s[j - 1]) then NumMutations(s[j - 1]) else 0)
  }

  /** An item the enumeration delegates to: fuzzable with mutations left. */
  predicate Eligible(c: Node)
  {
    IsFuzzable(c) && NumMutations(c) > 0
  }

  /** Every mutant in the tree is in a state its own methods keep. */
  predicate WF(n: Node)
  {
    match n
    case Leaf(m) => ValidState(m)
    case Composite(_, _, _, stack) => forall i :: 0 <= i < |stack| ==> WF(stack[i])
  }

  /** The canonical reset tree: every mutant reset, every block at index 0
      with a fresh generator. Its shape, names, settings and libraries are
      those of `n`. */
  function Base(n: Node): Node
  {
    match n
    case Leaf(m) => Leaf(ResetState(m))
    case Composite(settings, _, _, stack) => Composite(settings, 0, Fresh, BaseStack(stack))
  }

  /** The reset form of every item of a stack. */
  function BaseStack(s: seq<Node>): (r: seq<Node>)
    ensures |r| == |s|
  {
    seq(|s|, i requires 0 <= i < |s| => Base(s[i]))
  }

  /** A block paused in its stack loop: every item reset, index k. */
  function Scanning(t: Node, k: nat, g: Gen): Node
    requires t.Composite?
  {
    Composite(t.settings, k, g, BaseStack(t.stack))
  }

  /** `reset` on a child: a mutant's `reset`, or a block's `goto(0)`, which
      runs `_reset` (index 0, only fuzzable children reset) and replaces the
      generator by a fresh one. */
  function ResetNode(n: Node): Node
  {
    match n
    case Leaf(m) => Leaf(ResetState(m))
    case Composite(_, _, _, stack) =>
      Composite(n.settings, 0, Fresh,
                seq(|stack|, i requires 0 <= i < |stack| =>
                      if IsFuzzable(stack[i]) then ResetNode(stack[i]) else stack[i]))
  }

  lemma {:induction false} BaseIdempotent(n: Node)
    ensures Base(Base(n)) == Base(n)
  {
    if n.Composite? {
      forall i | 0 <= i < |n.stack| {
        BaseIdempotent(n.stack[i]);
      }
    }
  }

  lemma {:induction false} BaseWF(n: Node)
    ensures WF(Base(n))
  {
    if n.Composite? {
      forall i | 0 <= i < |n.stack| {
        BaseWF(n.stack[i]);
      }
    }
  }

  /** Sums agree when the items agree on fuzzability and count. */
  lemma {:induction false} PreCongruent(s: seq<Node>, t: seq<Node>, j: nat)
    requires j <= |s| && j <= |t|
    requires forall i :: 0 <= i < j ==>
      IsFuzzable(s[i]) == IsFuzzable(t[i]) && NumMutations(s[i]) == NumMutations(t[i])
    ensures Pre(s, j) == Pre(t, j)
  {
    if j > 0 {
      PreCongruent(s, t, j - 1);
    }
  }

  /** Counting ignores the cursor: a tree has as many mutations as its reset
      form, whatever state its mutants and generators are in. */
  lemma {:induction false} CountIgnoresCursor(n: Node)
    ensures NumMutations(Base(n)) == NumMutations(n)
    ensures IsFuzzable(Base(n)) == IsFuzzable(n)
  {
    if n.Composite? {
      var b := Base(n).stack;
      forall i | 0 <= i < |n.stack|
        ensures IsFuzzable(b[i]) == IsFuzzable(n.stack[i]) && NumMutations(b[i]) == NumMutations(n.stack[i])
      {
        assert b == BaseStack(n.stack);
        assert b[i] == Base(n.stack[i]);
        CountIgnoresCursor(n.stack[i]);
      }
      PreCongruent(b, n.stack, |n.stack|);
    }
  }

  /** On a well-formed tree `reset` reaches the canonical reset tree: the
      non-fuzzable mutants it skips are never off their original value. */
  lemma {:induction false} ResetIsBase(n: Node)
    requires WF(n)
    ensures ResetNode(n) == Base(n)
  {
    if n.Composite? {
      forall i | 0 <= i < |n.stack|
        ensures (if IsFuzzable(n.stack[i]) then ResetNode(n.stack[i]) else n.stack[i]) == Base(n.stack[i])
      {
        ResetIsBase(n.stack[i]);
      }
    }
  }

  /** Replacing one child by a node with the same reset form keeps the reset
      form of the block. */
  lemma BaseUpdate(n: Node, i: nat, x: Node)
    requires n.Composite? && i < |n.stack|
    requires Base(x) == Base(n.stack[i])
    ensures Base(n.(stack := n.stack[i := x])) == Base(n)
  {
    var n' := n.(stack := n.stack[i := x]);
    assert Base(n').stack == Base(n).stack;
  }

  /** The outcome of one `next()`: the new tree, whether it yielded, and the
      new `request.mutant`. */
  datatype StepResult = StepResult(node: Node, yielded: bool, mutant: Option<Path>)

  /** One `next()` on the generator of `n`, which sits at `at` from the root;
      `mutant` is the request's current mutant. A mutant's generator is
      `while self._mutate(): yield`; a block's resumes the child it delegates
      to, counts a yield, or moves on along its stack. */
  function Step(n: Node, at: Path, mutant: Option<Path>): (r: StepResult)
    requires WF(n)
    ensures WF(r.node) && Base(r.node) == Base(n)
    decreases Base(n), 1, 0
  {
    match n
    case Leaf(m) =>
      MutateKeepsValid(m);
      var (m', mutated) := MutateState(m);
      StepResult(Leaf(m'), mutated, mutant)
    case Composite(_, index, gen, stack) =>
      match gen
      case Fresh => Scan(n, 0, at, mutant)
      case Delegating(i) =>
        if i < |stack| then
          assert Base(stack[i]) == Base(n).stack[i];
          var c := Step(stack[i], at + [i], mutant);
          BaseUpdate(n, i, c.node);
          var n' := n.(stack := stack[i := c.node]);
          if c.yielded then StepResult(n'.(index := index + 1), true, c.mutant)
          else Scan(n', i + 1, at, c.mutant)
        else Scan(n, i + 1, at, mutant)
  }

  /** The `for item in self.stack` loop of `_mutation_generator`, from
      position j on. An eligible item is named the request's mutant when it
      is a mutant (a block's `goto(0)` clears it instead), restarted, and
      stepped; after the last item the request's mutant is cleared and the
      block reset. */
  function Scan(n: Node, j: nat, at: Path, mutant: Option<Path>): (r: StepResult)
    requires n.Composite? && WF(n)
    ensures WF(r.node) && Base(r.node) == Base(n)
    decreases Base(n), 0, |n.stack| - j
  {
    if j >= |n.stack| then
      ResetIsBase(n);
      BaseIdempotent(n);
      BaseWF(n);
      StepResult(ResetNode(n), false, None)
    else
      var item := n.stack[j];
      if Eligible(item) then
        var mutant' := if item.Leaf? then Some(at + [j]) else None;
        ResetIsBase(item);
        BaseIdempotent(item);
        BaseWF(item);
        assert Base(item) == Base(n).stack[j];
        var c := Step(ResetNode(item), at + [j], mutant');
        BaseUpdate(n, j, c.node);
        var n' := n.(stack := n.stack[j := c.node]);
        if c.yielded then StepResult(n'.(index := n.index + 1, gen := Delegating(j)), true, c.mutant)
        else Scan(n', j + 1, at, c.mutant)
      else Scan(n, j + 1, at, mutant)
  }

  /** Each item adds its own count: the running sum never decreases. */
  lemma {:induction false} PreMonotone(s: seq<Node>, a: nat, b: nat)
    requires a <= b <= |s|
    ensures Pre(s, a) <= Pre(s, b)
    decreases b - a
  {
    if a < b {
      PreMonotone(s, a, b - 1);
    }
  }

  /** The search for the item that owns the k-th mutation, from item j on. */
  function OwnerFrom(s: seq<Node>, k: nat, j: nat): (o: nat)
    requires j <= |s| && Pre(s, j) < k <= Pre(s, |s|)
    ensures j <= o < |s| && Pre(s, o) < k <= Pre(s, o + 1)
    decreases |s| - j
  {
    if j == |s| then j
    else if k <= Pre(s, j + 1) then j
    else OwnerFrom(s, k, j + 1)
  }

  /** The item of `s` whose run produces the k-th mutation of the block
      (counting from 1): the one whose sums bracket k. */
  function Owner(s: seq<Node>, k: nat): (o: nat)
    requires 0 < k <= Pre(s, |s|)
    ensures o < |s| && Pre(s, o) < k <= Pre(s, o + 1)
  {
    OwnerFrom(s, k, 0)
  }

  /** The bracketing item is unique. */
  lemma OwnerUnique(s: seq<Node>, k: nat, j: nat)
    requires j < |s| && Pre(s, j) < k <= Pre(s, j + 1)
    ensures k <= Pre(s, |s|) && Owner(s, k) == j
  {
    PreMonotone(s, j + 1, |s|);
    var o := Owner(s, k);
    if o < j {
      PreMonotone(s, o + 1, j);
    } else if o > j {
      PreMonotone(s, j + 1, o);
    }
  }

  /** The tree after k mutations of a full enumeration from the reset form
      of `t`: the owner of the k-th mutation is itself k - Pre steps in,
      every other item is reset, and the block's index is k. */
  function At(t: Node, k: nat): (r: Node)
    requires k <= NumMutations(t)
    ensures r.Leaf? == t.Leaf?
    ensures t.Composite? ==> r.settings == t.settings && r.index == k
  {
    match t
    case Leaf(m) => Leaf(Position(m, k))
    case Composite(_, _, _, stack) =>
      if k == 0 then Base(t)
      else
        var j := Owner(stack, k);
        Composite(t.settings, k, Delegating(j), BaseStack(stack)[j := At(stack[j], k - Pre(stack, j))])
  }

  /** The path to the mutant changed by the k-th mutation of `t`, where `t`
      itself sits at `at`. */
  function Active(t: Node, k: nat, at: Path): Path
    requires 0 < k <= NumMutations(t)
  {
    match t
    case Leaf(_) => at
    case Composite(_, _, _, stack) =>
      var j := Owner(stack, k);
      Active(stack[j], k - Pre(stack, j), at + [j])
  }

  /** Every enumeration state is well formed and has the reset form it
      started from. */
  lemma AtFacts(t: Node, k: nat)
    requires k <= NumMutations(t)
    ensures WF(At(t, k)) && Base(At(t, k)) == Base(t)
  {
    AtWF(t, k);
    AtBase(t, k);
  }

  lemma {:induction false} AtWF(t: Node, k: nat)
    requires k <= NumMutations(t)
    ensures WF(At(t, k))
  {
    if t.Composite? {
      if k == 0 {
        BaseWF(t);
      } else {
        var j := Owner(t.stack, k);
        var s' := BaseStack(t.stack)[j := At(t.stack[j], k - Pre(t.stack, j))];
        forall i | 0 <= i < |t.stack|
          ensures WF(s'[i])
        {
          if i == j {
            AtWF(t.stack[j], k - Pre(t.stack, j));
          } else {
            BaseWF(t.stack[i]);
          }
        }
      }
    }
  }

  lemma {:induction false} AtBase(t: Node, k: nat)
    requires k <= NumMutations(t)
    ensures Base(At(t, k)) == Base(t)
  {
    if t.Composite? {
      if k == 0 {
        BaseIdempotent(t);
      } else {
        var j := Owner(t.stack, k);
        var x := At(t.stack[j], k - Pre(t.stack, j));
        AtBase(t.stack[j], k - Pre(t.stack, j));
        BaseStackReplace(t.stack, j, x);
        assert Base(At(t, k)) == Composite(t.settings, 0, Fresh, BaseStack(BaseStack(t.stack)[j := x]));
      }
    }
  }

  /** Putting, into an all-reset stack, an item with the same reset form
      as the one it replaces leaves the reset stack as it was. */
  lemma BaseStackReplace(s: seq<Node>, j: nat, x: Node)
    requires j < |s| && Base(x) == Base(s[j])
    ensures BaseStack(BaseStack(s)[j := x]) == BaseStack(s)
  {
    var s' := BaseStack(s)[j := x];
    forall i | 0 <= i < |s|
      ensures Base(s'[i]) == Base(s[i])
    {
      if i != j {
        BaseIdempotent(s[i]);
      }
    }
  }


  /** A child that is not eligible adds nothing to the running sum. */
  lemma PreSkip(s: seq<Node>, j: nat)
    requires j < |s| && !Eligible(s[j])
    ensures Pre(s, j + 1) == Pre(s, j)
  {
  }

  /** The enumeration advances: from the state after k < n mutations, one
      `next()` yields and reaches the state after k + 1, and the request's
      mutant is then the mutant changed by the (k + 1)-th mutation. */
  lemma {:induction false} StepAdvances(t: Node, k: nat, at: Path, mutant: Option<Path>)
    requires k < NumMutations(t)
    requires t.Composite? && k > 0 ==> mutant == Some(Active(t, k, at))
    ensures WF(At(t, k))
    ensures Step(At(t, k), at, mutant) ==
      StepResult(At(t, k + 1), true, if t.Leaf? then mutant else Some(Active(t, k + 1, at)))
    decreases t, 1, 0
  {
    AtFacts(t, k);
    match t
    case Leaf(m) =>
      MutateStep(m, k);
    case Composite(_, _, _, stack) =>
      if k == 0 {
        ScanFrom(t, 0, 0, at, mutant, Fresh);
      } else {
        var j := Owner(stack, k);
        if k - Pre(stack, j) < NumMutations(stack[j]) {
          StepWithin(t, k, j, at, mutant);
        } else {
          StepAcross(t, k, j, at, mutant);
        }
      }
  }

  /** The enumeration ends: from the state after all n mutations, one
      `next()` yields nothing, leaves the tree reset and (for a block) clears
      the request's mutant. */
  lemma {:induction false} StepFinishes(t: Node, at: Path, mutant: Option<Path>)
    requires t.Composite? && NumMutations(t) > 0 ==> mutant == Some(Active(t, NumMutations(t), at))
    ensures WF(At(t, NumMutations(t)))
    ensures Step(At(t, NumMutations(t)), at, mutant) ==
      StepResult(Base(t), false, if t.Leaf? then mutant else None)
    decreases t, 1, 0
  {
    var n := NumMutations(t);
    AtFacts(t, n);
    match t
    case Leaf(m) =>
      MutateStep(m, n);
    case Composite(_, _, _, stack) =>
      if n == 0 {
        ScanFrom(t, 0, 0, at, mutant, Fresh);
      } else {
        StepPastLast(t, Owner(stack, n), at, mutant);
      }
  }

  /** One `next()` on a block suspended inside item j, when that item
      yields: the block counts one more mutation and stays with it. */
  lemma DelegateYield(a: Node, j: nat, at: Path, mutant: Option<Path>, x: Node, m: Option<Path>)
    requires a.Composite? && WF(a) && a.gen == Delegating(j) && j < |a.stack|
    requires Step(a.stack[j], at + [j], mutant) == StepResult(x, true, m)
    ensures Step(a, at, mutant) == StepResult(Composite(a.settings, a.index + 1, a.gen, a.stack[j := x]), true, m)
  {
  }

  /** One `next()` on a block suspended inside item j, when that item is
      exhausted: the stack loop moves on from item j + 1. */
  lemma DelegateFinish(a: Node, j: nat, at: Path, mutant: Option<Path>, x: Node, m: Option<Path>)
    requires a.Composite? && WF(a) && a.gen == Delegating(j) && j < |a.stack|
    requires Step(a.stack[j], at + [j], mutant) == StepResult(x, false, m)
    ensures WF(Composite(a.settings, a.index, a.gen, a.stack[j := x]))
    ensures Step(a, at, mutant) == Scan(Composite(a.settings, a.index, a.gen, a.stack[j := x]), j + 1, at, m)
  {
  }

  /** Stepping the owner of a block state keeps the block's other items. */
  lemma Redelegate(s: Settings, k: nat, j: nat, bs: seq<Node>, a: Node, x: Node, y: Node,
                   r: StepResult, m: Option<Path>)
    requires j < |bs| && a == Composite(s, k, Delegating(j), bs[j := x])
    requires r == StepResult(Composite(a.settings, a.index + 1, a.gen, a.stack[j := y]), true, m)
    ensures r == StepResult(Composite(s, k + 1, Delegating(j), bs[j := y]), true, m)
  {
    assert bs[j := x][j := y] == bs[j := y];
  }

  /** Returning the owner to its reset form gives back the all-reset stack. */
  lemma Restore(s: Settings, k: nat, j: nat, bs: seq<Node>, a: Node, x: Node)
    requires j < |bs| && a == Composite(s, k, Delegating(j), bs[j := x])
    ensures Composite(a.settings, a.index, a.gen, a.stack[j := bs[j]]) == Composite(s, k, Delegating(j), bs)
  {
    assert bs[j := x][j := bs[j]] == bs;
  }

  /** The request's mutant after a step inside the owner: a mutant owner
      keeps it, a block owner names the mutant its own step changed. */
  lemma NextActive(t: Node, k: nat, j: nat, at: Path, mutant: Option<Path>)
    requires t.Composite? && 0 < k < NumMutations(t) && j == Owner(t.stack, k)
    requires k - Pre(t.stack, j) < NumMutations(t.stack[j])
    requires mutant == Some(Active(t, k, at))
    ensures var c := t.stack[j]; var kc := k - Pre(t.stack, j);
      Some(Active(t, k + 1, at)) == if c.Leaf? then mutant else Some(Active(c, kc + 1, at + [j]))
  {
    var c := t.stack[j];
    var kc := k - Pre(t.stack, j);
    assert Pre(t.stack, j) < k + 1 <= Pre(t.stack, j + 1) by {
      assert Pre(t.stack, j + 1) == Pre(t.stack, j) + NumMutations(c);
    }
    ActiveOwner(t, k + 1, j, at);
    if c.Leaf? {
      ActiveOwner(t, k, j, at);
    }
  }

  /** A step inside the owner of the k-th mutation, which has mutations left. */
  lemma {:induction false} StepWithin(t: Node, k: nat, j: nat, at: Path, mutant: Option<Path>)
    requires t.Composite? && 0 < k < NumMutations(t) && j == Owner(t.stack, k)
    requires k - Pre(t.stack, j) < NumMutations(t.stack[j])
    requires mutant == Some(Active(t, k, at))
    ensures WF(At(t, k))
    ensures Step(At(t, k), at, mutant) == StepResult(At(t, k + 1), true, Some(Active(t, k + 1, at)))
    decreases t, 0, 0
  {
    var c := t.stack[j];
    var kc := k - Pre(t.stack, j);
    var a := At(t, k);
    var bs := BaseStack(t.stack);
    var mc := if c.Leaf? then mutant else Some(Active(c, kc + 1, at + [j]));
    assert WF(a) by {
      AtFacts(t, k);
    }
    assert a == Composite(t.settings, k, Delegating(j), bs[j := At(c, kc)]) by {
      AtOwner(t, k, j);
    }
    assert At(t, k + 1) == Composite(t.settings, k + 1, Delegating(j), bs[j := At(c, kc + 1)]) by {
      AtOwner(t, k + 1, j);
    }
    assert Step(At(c, kc), at + [j], mutant) == StepResult(At(c, kc + 1), true, mc) by {
      ActiveOwner(t, k, j, at);
      StepAdvances(c, kc, at + [j], mutant);
    }
    assert mc == Some(Active(t, k + 1, at)) by {
      NextActive(t, k, j, at, mutant);
    }
    assert Step(a, at, mutant) == StepResult(Composite(t.settings, k + 1, Delegating(j), bs[j := At(c, kc + 1)]), true, mc) by {
      DelegateYield(a, j, at, mutant, At(c, kc + 1), mc);
      Redelegate(t.settings, k, j, bs, a, At(c, kc), At(c, kc + 1), Step(a, at, mutant), mc);
    }
  }

  /** The owner of the k-th mutation, at its last mutation, seen inside the
      block: one more step exhausts it. */
  lemma {:induction false} OwnerFinishes(t: Node, k: nat, j: nat, at: Path, mutant: Option<Path>)
    requires t.Composite? && 0 < k <= NumMutations(t) && j == Owner(t.stack, k)
    requires k - Pre(t.stack, j) == NumMutations(t.stack[j])
    requires mutant == Some(Active(t, k, at))
    ensures var c := t.stack[j];
      At(t, k) == Composite(t.settings, k, Delegating(j), BaseStack(t.stack)[j := At(c, NumMutations(c))])
    ensures WF(At(t.stack[j], NumMutations(t.stack[j])))
    ensures var c := t.stack[j];
      Step(At(c, NumMutations(c)), at + [j], mutant) == StepResult(Base(c), false, if c.Leaf? then mutant else None)
    decreases t, 0, 0
  {
    AtOwner(t, k, j);
    ActiveOwner(t, k, j, at);
    StepFinishes(t.stack[j], at + [j], mutant);
  }

  /** Past the end of the owner of the k-th mutation, the block resets it
      and resumes its stack loop at the next item with all items reset. */
  lemma {:induction false} OwnerExhausted(t: Node, k: nat, j: nat, at: Path, mutant: Option<Path>)
    requires t.Composite? && 0 < k <= NumMutations(t) && j == Owner(t.stack, k)
    requires k - Pre(t.stack, j) == NumMutations(t.stack[j])
    requires mutant == Some(Active(t, k, at))
    ensures j + 1 <= |t.stack| && Pre(t.stack, j + 1) == k
    ensures WF(At(t, k)) && WF(Scanning(t, k, Delegating(j)))
    ensures Step(At(t, k), at, mutant) ==
      Scan(Scanning(t, k, Delegating(j)), j + 1, at, if t.stack[j].Leaf? then mutant else None)
    decreases t, 0, 1
  {
    AtFacts(t, k);
    BaseWF(t);
    var c := t.stack[j];
    var a := At(t, k);
    var mc := if c.Leaf? then mutant else None;
    OwnerFinishes(t, k, j, at, mutant);
    DelegateFinish(a, j, at, mutant, Base(c), mc);
    Restore(t.settings, k, j, BaseStack(t.stack), a, At(c, NumMutations(c)));
  }

  /** A step past the end of the owner of the k-th mutation, k < n: it is
      reset and the stack loop starts the next item with mutations. */
  lemma {:induction false} StepAcross(t: Node, k: nat, j: nat, at: Path, mutant: Option<Path>)
    requires t.Composite? && 0 < k < NumMutations(t) && j == Owner(t.stack, k)
    requires k - Pre(t.stack, j) == NumMutations(t.stack[j])
    requires mutant == Some(Active(t, k, at))
    ensures WF(At(t, k))
    ensures Step(At(t, k), at, mutant) == StepResult(At(t, k + 1), true, Some(Active(t, k + 1, at)))
    decreases t, 0, |t.stack| + 2
  {
    OwnerExhausted(t, k, j, at, mutant);
    ScanFrom(t, j + 1, k, at, if t.stack[j].Leaf? then mutant else None, Delegating(j));
  }

  /** A step past the end of the owner of the last mutation: the stack loop
      finds nothing more, resets the block and clears the request's mutant. */
  lemma {:induction false} StepPastLast(t: Node, j: nat, at: Path, mutant: Option<Path>)
    requires t.Composite? && 0 < NumMutations(t) && j == Owner(t.stack, NumMutations(t))
    requires mutant == Some(Active(t, NumMutations(t), at))
    ensures WF(At(t, NumMutations(t)))
    ensures Step(At(t, NumMutations(t)), at, mutant) == StepResult(Base(t), false, None)
    decreases t, 0, |t.stack| + 2
  {
    var n := NumMutations(t);
    PreMonotone(t.stack, j + 1, |t.stack|);
    OwnerExhausted(t, n, j, at, mutant);
    ScanFrom(t, j + 1, n, at, if t.stack[j].Leaf? then mutant else None, Delegating(j));
  }

  /** The stack loop from item j of a block whose items are all reset and
      whose index already counts the mutations of the items before j: it
      starts the next eligible item and yields the state after one more
      mutation, or, with no eligible item left, resets the block. */
  lemma {:induction false} ScanFrom(t: Node, j: nat, k: nat, at: Path, mutant: Option<Path>, g: Gen)
    requires t.Composite? && j <= |t.stack| && k == Pre(t.stack, j)
    ensures WF(Scanning(t, k, g))
    ensures k < NumMutations(t) ==>
      Scan(Scanning(t, k, g), j, at, mutant) == StepResult(At(t, k + 1), true, Some(Active(t, k + 1, at)))
    ensures k == NumMutations(t) ==>
      Scan(Scanning(t, k, g), j, at, mutant) == StepResult(Base(t), false, None)
    decreases t, 0, |t.stack| - j + 2
  {
    var n := Scanning(t, k, g);
    BaseWF(t);
    PreMonotone(t.stack, j, |t.stack|);
    if j == |t.stack| {
      ScanEnd(t, j, k, at, mutant, g);
    } else if Eligible(t.stack[j]) {
      ScanStart(t, j, k, at, mutant, g);
    } else {
      CountIgnoresCursor(t.stack[j]);
      assert !Eligible(n.stack[j]);
      PreSkip(t.stack, j);
      ScanFrom(t, j + 1, k, at, mutant, g);
    }
  }

  lemma ScanEnd(t: Node, j: nat, k: nat, at: Path, mutant: Option<Path>, g: Gen)
    requires t.Composite? && j == |t.stack| && k == Pre(t.stack, j)
    ensures WF(Scanning(t, k, g))
    ensures Scan(Scanning(t, k, g), j, at, mutant) == StepResult(Base(t), false, None)
  {
    var n := Scanning(t, k, g);
    BaseWF(t);
    BaseIdempotent(t);
    ResetIsBase(n);
    assert Base(n) == Base(t);
  }

  /** One level of the stack loop at an eligible item whose first step
      yields. */
  lemma ScanYields(n: Node, j: nat, at: Path, mutant: Option<Path>, x: Node, m: Option<Path>)
    requires n.Composite? && WF(n) && j < |n.stack| && Eligible(n.stack[j])
    requires WF(ResetNode(n.stack[j]))
    requires Step(ResetNode(n.stack[j]), at + [j], if n.stack[j].Leaf? then Some(at + [j]) else None)
             == StepResult(x, true, m)
    ensures Scan(n, j, at, mutant) == StepResult(Composite(n.settings, n.index + 1, Delegating(j), n.stack[j := x]), true, m)
  {
  }

  /** The state after k mutations, seen from the item j that owns the k-th. */
  lemma AtOwner(t: Node, k: nat, j: nat)
    requires t.Composite? && j < |t.stack| && Pre(t.stack, j) < k <= Pre(t.stack, j + 1)
    ensures k <= NumMutations(t) && k - Pre(t.stack, j) <= NumMutations(t.stack[j])
    ensures At(t, k) == Composite(t.settings, k, Delegating(j),
                                  BaseStack(t.stack)[j := At(t.stack[j], k - Pre(t.stack, j))])
  {
    OwnerUnique(t.stack, k, j);
  }

  /** The mutant changed by the k-th mutation, seen from the item j that
      owns it. */
  lemma ActiveOwner(t: Node, k: nat, j: nat, at: Path)
    requires t.Composite? && j < |t.stack| && Pre(t.stack, j) < k <= Pre(t.stack, j + 1)
    ensures k <= NumMutations(t) && 0 < k - Pre(t.stack, j) <= NumMutations(t.stack[j])
    ensures Active(t, k, at) == Active(t.stack[j], k - Pre(t.stack, j), at + [j])
  {
    OwnerUnique(t.stack, k, j);
  }

  /** The first step of an eligible item restarted by the stack loop: its
      reset is the start of its own enumeration, and it yields its first
      mutation. */
  lemma {:induction false} FirstStep(t: Node, j: nat, k: nat, at: Path, g: Gen)
    requires t.Composite? && j < |t.stack| && Eligible(t.stack[j]) && k == Pre(t.stack, j)
    ensures WF(Scanning(t, k, g)) && Scanning(t, k, g).stack[j] == Base(t.stack[j])
    ensures k < NumMutations(t) && Eligible(Base(t.stack[j]))
    ensures ResetNode(Base(t.stack[j])) == At(t.stack[j], 0) && WF(At(t.stack[j], 0))
    ensures var c := t.stack[j]; var mc := if c.Leaf? then Some(at + [j]) else None;
      Step(At(c, 0), at + [j], mc) ==
      StepResult(At(c, 1), true, if c.Leaf? then mc else Some(Active(c, 1, at + [j])))
    ensures var c := t.stack[j];
      Some(Active(t, k + 1, at)) == if c.Leaf? then Some(at + [j]) else Some(Active(c, 1, at + [j]))
    decreases t, 0, 0
  {
    var c := t.stack[j];
    var mc := if c.Leaf? then Some(at + [j]) else None;
    assert WF(Scanning(t, k, g)) && Scanning(t, k, g).stack[j] == Base(c) by {
      BaseWF(t);
    }
    assert k < NumMutations(t) && Eligible(Base(c)) by {
      PreMonotone(t.stack, j + 1, |t.stack|);
      CountIgnoresCursor(c);
    }
    assert ResetNode(Base(c)) == At(c, 0) && WF(At(c, 0)) by {
      BaseWF(c);
      ResetIsBase(Base(c));
      BaseIdempotent(c);
    }
    assert Step(At(c, 0), at + [j], mc) ==
           StepResult(At(c, 1), true, if c.Leaf? then mc else Some(Active(c, 1, at + [j]))) by {
      CountIgnoresCursor(c);
      StepAdvances(c, 0, at + [j], mc);
    }
    ActiveOwner(t, k + 1, j, at);
  }

  /** The stack loop reaching an eligible item: it names the request's
      mutant (or clears it for a block), restarts the item and yields the
      block's next mutation. */
  lemma {:induction false} ScanStart(t: Node, j: nat, k: nat, at: Path, mutant: Option<Path>, g: Gen)
    requires t.Composite? && j < |t.stack| && Eligible(t.stack[j]) && k == Pre(t.stack, j)
    ensures WF(Scanning(t, k, g))
    ensures k < NumMutations(t)
    ensures Scan(Scanning(t, k, g), j, at, mutant) == StepResult(At(t, k + 1), true, Some(Active(t, k + 1, at)))
    decreases t, 0, 1
  {
    var n := Scanning(t, k, g);
    var c := t.stack[j];
    var m1 := if c.Leaf? then Some(at + [j]) else Some(Active(c, 1, at + [j]));
    var bs := BaseStack(t.stack);
    FirstStep(t, j, k, at, g);
    assert Scan(n, j, at, mutant) == StepResult(Composite(t.settings, k + 1, Delegating(j), bs[j := At(c, 1)]), true, m1) by {
      ScanYields(n, j, at, mutant, At(c, 1), m1);
    }
    assert At(t, k + 1) == Composite(t.settings, k + 1, Delegating(j), bs[j := At(c, 1)]) by {
      AtOwner(t, k + 1, j);
    }
  }
}
