/**
 * The leaf state machine of the fuzzer: a field with an original value, a
 * fixed library of candidate values and a cursor into that library.
 *
 * The functions on `MutantState` are the specification of the state machine
 * (and what the block tree stores at its leaves); the class `Mutant` is the
 * object whose methods update `_value`, `_mutant_index` and `_fuzz_complete`
 * in place, each proved against those functions.
 */
module Mutants {
  import opened Common

  /** The fields of a Mutant object. `index` is `_mutant_index`: 0 means the
      original value, k means the k-th library entry is the current value. */
  datatype MutantState = MutantState(
    name: string,
    original: Value,
    library: seq<Value>,
    fuzzable: bool,
    value: Value,
    index: nat,
    complete: bool)

  /** `num_mutations`: the library size when fuzzable, else 0. */
  function NumMutations(m: MutantState): (n: nat)
    ensures n <= |m.library|
    ensures n > 0 ==> m.fuzzable
  {
    if m.fuzzable then |m.library| else 0
  }

  /** The `original_value` property: the encoded original. */
  function OriginalValue(m: MutantState): (r: bytes)
    ensures r == RenderState(ResetState(m), None, None, false).b
  {
    Encode(m.original)
  }

  /** `reset`: index 0, value back to the original, complete iff not fuzzable. */
  function ResetState(m: MutantState): (r: MutantState)
    ensures ValidState(r) && r.index == 0
    ensures NumMutations(r) == NumMutations(m)
  {
    m.(index := 0, value := m.original, complete := !m.fuzzable)
  }

  /** The state the source keeps between calls: the index stays within
      [0, num_mutations], index 0 holds the original value, index k the k-th
      library entry, and the completion flag is set exactly when the mutant is
      not fuzzable. */
  predicate ValidState(m: MutantState)
  {
    && m.index <= NumMutations(m)
    && (m.index == 0 ==> m.value == m.original)
    && (m.index > 0 ==> m.value == m.library[m.index - 1])
    && m.complete == !m.fuzzable
  }

  /** The state after k successful mutations from the reset state. */
  function Position(m: MutantState, k: nat): (r: MutantState)
    requires k <= NumMutations(m)
    ensures ValidState(r) && r.index == k
    ensures ResetState(r) == ResetState(m)
  {
    if k == 0 then ResetState(m)
    else m.(value := m.library[k - 1], index := k, complete := false)
  }

  /** Every valid state is the position its index names. */
  lemma ValidIsPosition(m: MutantState)
    requires ValidState(m)
    ensures m == Position(m, m.index)
  {
  }

  /** `_mutate`: at the end of the library (or when not fuzzable) the original
      is restored, the mutant reset, and False returned; otherwise the next
      library entry becomes the value and the index moves on. */
  function MutateState(m: MutantState): (r: (MutantState, bool))
    requires m.index <= NumMutations(m)
    ensures r.1 <==> m.fuzzable && !m.complete && m.index < NumMutations(m)
    ensures !r.1 ==> r.0 == ResetState(m)
    ensures r.1 ==> r.0.index == m.index + 1 && r.0.value == m.library[m.index]
  {
    var complete := if m.index == NumMutations(m) then true else m.complete;
    if !m.fuzzable || complete then
      (ResetState(m.(value := m.original, complete := complete)), false)
    else
      (m.(value := m.library[m.index], index := m.index + 1, complete := complete), true)
  }

  /** One step of the state machine moves from position k to k + 1 and
      reports a mutation; from the last position it returns to the reset
      state and reports none. The index therefore stays in [0, num_mutations]. */
  lemma {:induction false} MutateStep(m: MutantState, k: nat)
    requires k <= NumMutations(m)
    ensures k < NumMutations(m) ==> MutateState(Position(m, k)) == (Position(m, k + 1), true)
    ensures k == NumMutations(m) ==> MutateState(Position(m, k)) == (ResetState(m), false)
  {
    var p := Position(m, k);
    assert NumMutations(p) == NumMutations(m);
    if k < NumMutations(m) {
      assert p.complete == false;
    }
  }

  /** From any valid state one `_mutate` lands in a valid state with the same
      fields apart from the cursor and the current value. */
  lemma MutateKeepsValid(m: MutantState)
    requires ValidState(m)
    ensures ValidState(MutateState(m).0)
    ensures ResetState(MutateState(m).0) == ResetState(m)
  {
    ValidIsPosition(m);
    MutateStep(m, m.index);
  }

  /** `goto`: an index beyond num_mutations is refused, 0 resets, otherwise
      the index is set to k - 1 and one mutation applied. */
  function GotoState(m: MutantState, k: nat): (r: Result<MutantState>)
    requires m.index <= NumMutations(m)
    requires m.complete == !m.fuzzable
    ensures k > NumMutations(m) <==> r.Err?
    ensures r.Err? ==> r.error == OutOfRange(k, NumMutations(m))
    ensures r.Ok? ==> r.value == Position(m, k)
  {
    if k > NumMutations(m) then Err(OutOfRange(k, NumMutations(m)))
    else if k == 0 then Ok(ResetState(m))
    else Ok(MutateState(m.(index := k - 1)).0)
  }

  /** `render`: an override addressed to this name wins, then the raw,
      unencoded original when `original` is set, else the encoded current
      value. */
  function RenderState(m: MutantState, replaceNode: Option<string>, replaceValue: Option<bytes>,
                  original: bool): (r: Value)
    ensures !original ==> r.Bytes?
    ensures r.Text? ==> original && r == m.original
  {
    if replaceNode.Some? && replaceValue.Some? && replaceNode.value == m.name then
      Bytes(replaceValue.value)
    else if original then m.original
    else Bytes(Encode(m.value))
  }

  /** Whatever the state, the override wins when addressed to this name; at
      the reset state the plain render is the encoded original value, and in
      any valid state it is the encoding of the library entry the index names. */
  lemma RenderCases(m: MutantState, replaceNode: Option<string>, replaceValue: Option<bytes>)
    requires ValidState(m)
    ensures replaceNode.Some? && replaceValue.Some? && replaceNode.value == m.name ==>
              forall o :: RenderState(m, replaceNode, replaceValue, o) == Bytes(replaceValue.value)
    ensures m.index == 0 ==> RenderState(m, None, None, false) == Bytes(OriginalValue(m))
    ensures m.index > 0 ==> RenderState(m, None, None, false) == Bytes(Encode(m.library[m.index - 1]))
    ensures RenderState(m, None, None, true) == m.original
  {
  }

  /** What `mutation_generator(k)` yields when drained: the renders of the
      library entries k .. n - 1, in order. */
  function Remaining(m: MutantState, k: nat): (r: seq<bytes>)
    requires k <= NumMutations(m)
    ensures |r| == NumMutations(m) - k
    ensures forall i :: 0 <= i < |r| ==> r[i] == Encode(m.library[k + i])
  {
    seq(NumMutations(m) - k, i requires 0 <= i < NumMutations(m) - k => Encode(m.library[k + i]))
  }

  /** The Mutant constructor: the name setter refuses a missing name and one
      that does not follow the pattern; otherwise the mutant starts reset. */
  function Create(value: Value, name: Option<string>, fuzzable: bool, mutations: seq<Value>)
    : (r: Result<MutantState>)
    ensures r.Ok? <==> name.Some? && MatchesName(name.value)
    ensures r.Err? ==> r.error == InvalidName
    ensures r.Ok? ==> ValidState(r.value) && r.value.index == 0 && r.value.value == value
                      && r.value.original == value && r.value.library == mutations
                      && r.value.fuzzable == fuzzable && r.value.name == name.value
  {
    if name.Some? && MatchesName(name.value) then
      Ok(MutantState(name.value, value, mutations, fuzzable, value, 0, !fuzzable))
    else Err(InvalidName)
  }

  /** A Mutant object. */
  class Mutant {
    const name: string
    const original: Value
    const library: seq<Value>
    const fuzzable: bool
    var value: Value
    var index: nat
    var fuzzComplete: bool

    function State(): MutantState
      reads this
    {
      MutantState(name, original, library, fuzzable, value, index, fuzzComplete)
    }

    ghost predicate Valid()
      reads this
    {
      ValidState(State())
    }

    /** Only reached with a name the setter accepts; see `New`. */
    constructor (v: Value, n: string, isFuzzable: bool, mutations: seq<Value>)
      requires MatchesName(n)
      ensures Create(v, Some(n), isFuzzable, mutations) == Ok(State())
      ensures Valid()
    {
      fuzzable := isFuzzable;
      name := n;
      library := mutations;
      original := v;
      fuzzComplete := !isFuzzable;
      value := v;
      index := 0;
    }

    /** `Mutant(value, name, fuzzable, mutations)`, raising on a bad name. */
    static method New(v: Value, n: Option<string>, isFuzzable: bool, mutations: seq<Value>)
      returns (r: Result<Mutant>)
      ensures r.Ok? <==> Create(v, n, isFuzzable, mutations).Ok?
      ensures r.Err? ==> r.error == InvalidName
      ensures r.Ok? ==> fresh(r.value) && Create(v, n, isFuzzable, mutations) == Ok(r.value.State())
    {
      if n.Some? && MatchesName(n.value) {
        var m := new Mutant(v, n.value, isFuzzable, mutations);
        r := Ok(m);
      } else {
        r := Err(InvalidName);
      }
    }

    method Reset()
      modifies this
      ensures State() == ResetState(old(State()))
    {
      fuzzComplete := !fuzzable;
      index := 0;
      value := original;
    }

    method Mutate() returns (mutated: bool)
      requires index <= NumMutations(State())
      modifies this
      ensures (State(), mutated) == MutateState(old(State()))
    {
      if index == NumMutations(State()) {
        fuzzComplete := true;
      }
      if !fuzzable || fuzzComplete {
        value := original;
        Reset();
        return false;
      }
      value := library[index];
      index := index + 1;
      return true;
    }

    method Goto(k: nat) returns (r: Result<()>)
      requires Valid()
      modifies this
      ensures Valid()
      ensures r.Err? <==> GotoState(old(State()), k).Err?
      ensures r.Err? ==> r.error == OutOfRange(k, NumMutations(State())) && State() == old(State())
      ensures r.Ok? ==> State() == GotoState(old(State()), k).value
    {
      if k > NumMutations(State()) {
        return Err(OutOfRange(k, NumMutations(State())));
      } else if k == 0 {
        Reset();
      } else {
        index := k - 1;
        var _ := Mutate();
      }
      return Ok(());
    }

    /** The current render. */
    function Render(replaceNode: Option<string>, replaceValue: Option<bytes>, original: bool): Value
      reads this
    {
      RenderState(State(), replaceNode, replaceValue, original)
    }

    /** `mutation_generator(k)` drained: with an index, reset, seek to k
        (refused beyond num_mutations, before anything is yielded); with
        None, start from the current state. Then `while _mutate(): yield
        render()`. The outs are the renders of the library entries from the
        starting index to n - 1, and the mutant ends in its reset state. */
    method MutationGenerator(k: Option<nat> := Some(0)) returns (r: Result<seq<bytes>>)
      requires Valid()
      modifies this
      ensures Valid()
      ensures State() == ResetState(old(State()))
      ensures k.None? ==> r == Ok(Remaining(old(State()), old(index)))
      ensures k.Some? ==> (r.Err? <==> k.value > NumMutations(State()))
      ensures k.Some? && r.Err? ==> r.error == OutOfRange(k.value, NumMutations(State()))
      ensures k.Some? && r.Ok? ==> r.value == Remaining(State(), k.value)
    {
      if k.Some? {
        Reset();
        var g := Goto(k.value);
        if g.Err? {
          return Err(g.error);
        }
      }
      var outs := Drain();
      return Ok(outs);
    }

    /** One `next()` of `while _mutate(): yield render()`: below the count
        the next library entry becomes current and is yielded encoded; at
        the count the mutant resets and the loop ends. */
    method Next() returns (out: Option<bytes>)
      requires Valid()
      modifies this
      ensures Valid()
      ensures old(index) < NumMutations(State()) ==>
        out == Some(Encode(library[old(index)])) && State() == Position(old(State()), old(index) + 1)
      ensures old(index) == NumMutations(State()) ==> out == None && State() == ResetState(old(State()))
    {
      ghost var s0 := State();
      ValidIsPosition(s0);
      MutateStep(s0, index);
      var more := Mutate();
      if !more {
        return None;
      }
      var v := Render(None, None, false);
      return Some(v.b);
    }

    /** `while _mutate(): yield render()` drained from the current state:
        the renders of the library entries after the current index, in
        order, ending reset. */
    method Drain() returns (outs: seq<bytes>)
      requires Valid()
      modifies this
      ensures Valid()
      ensures outs == Remaining(old(State()), old(index))
      ensures State() == ResetState(old(State()))
    {
      ghost var s0 := State();
      ghost var k := index;
      ghost var n := NumMutations(s0);
      ValidIsPosition(s0);
      outs := [];
      while true
        invariant Valid() && k <= index <= n && State() == Position(s0, index)
        invariant |outs| == index - k
        invariant forall i :: 0 <= i < |outs| ==> outs[i] == Encode(library[k + i])
        decreases n - index
      {
        var out := Next();
        if out.None? {
          break;
        }
        outs := outs + [out.value];
      }
      assert outs == Remaining(s0, k);
    }
  }
}
