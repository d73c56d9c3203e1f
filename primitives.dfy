/**
 * The mutation strategies: constructors that fill a Mutant's library with
 * nothing (Static), with a caller-given list (Group), or with randomly sized
 * random byte strings fixed at construction (RandomData).
 */
module Primitives {
  import opened Common
  import opened Mutants

  /** `Static(value, name)`: a mutant that is not fuzzable and has an empty
      library. */
  function Static(value: Value, name: Option<string>): (r: Result<MutantState>)
    ensures r.Ok? <==> name.Some? && MatchesName(name.value)
    ensures r.Err? ==> r.error == InvalidName
    ensures r.Ok? ==>
      && ValidState(r.value) && r.value.index == 0 && r.value.value == value && r.value.original == value
      && !r.value.fuzzable && r.value.library == [] && NumMutations(r.value) == 0
  {
    Create(value, name, false, [])
  }

  /** A Static primitive never mutates: no mutations, `_mutate` always
      reports none and leaves it reset, its render is the encoded original
      unless overridden, every positive goto is refused, and reset keeps the
      completion flag raised. */
  lemma StaticNeverMutates(value: Value, name: Option<string>, k: nat)
    requires Static(value, name).Ok?
    ensures var m := Static(value, name).value;
      && NumMutations(m) == 0
      && MutateState(m) == (m, false)
      && RenderState(m, None, None, false) == Bytes(Encode(value))
      && (k > 0 <==> GotoState(m, k).Err?)
      && ResetState(m).complete
      && Remaining(m, 0) == []
  {
  }

  /** `Group(value, values, name)`: always fuzzable, the library is exactly
      `values`; the default `name=None` is refused by the name setter. */
  function Group(value: Value, values: seq<Value>, name: Option<string>): (r: Result<MutantState>)
    ensures r.Ok? <==> name.Some? && MatchesName(name.value)
    ensures r.Err? ==> r.error == InvalidName
    ensures r.Ok? ==>
      && ValidState(r.value) && r.value.index == 0 && r.value.value == value && r.value.original == value
      && r.value.fuzzable && r.value.library == values && NumMutations(r.value) == |values|
  {
    Create(value, name, true, values)
  }

  /** A Group enumerates its values in the given order (no reordering, no
      de-duplication): it has one mutation per value, goto(k) makes the k-th
      value current, draining the generator yields every value in order, and
      a Group left without a name is refused. */
  lemma GroupEnumeratesValues(value: Value, values: seq<Value>, name: Option<string>, k: nat)
    ensures name.None? ==> Group(value, values, name) == Err(InvalidName)
    ensures Group(value, values, name).Ok? ==>
      var m := Group(value, values, name).value;
      && m.fuzzable && m.library == values
      && NumMutations(m) == |values|
      && (1 <= k <= |values| ==> GotoState(m, k).Ok? && GotoState(m, k).value.value == values[k - 1])
      && |Remaining(m, 0)| == |values|
      && (forall i :: 0 <= i < |values| ==> Remaining(m, 0)[i] == Encode(values[i]))
  {
  }

  /** `max(0, length)`: `range` of a negative length is empty. */
  function ByteCount(length: int): nat
  {
    if length < 0 then 0 else length
  }

  /** One candidate of RandomData: bytes whose count is `max(0, length)` for
      some length drawn from [min_length, max_length]. */
  predicate IsCandidate(c: Value, minLength: int, maxLength: int)
  {
    && c.Bytes?
    && minLength <= maxLength
    && (if |c.b| == 0 then minLength <= 0 else minLength <= |c.b| <= maxLength)
  }

  /** The candidates are exactly the byte strings whose size some draw of
      length in [min_length, max_length] produces. */
  lemma CandidateIsDraw(c: Value, minLength: int, maxLength: int, length: int)
    requires c.Bytes? && minLength <= length <= maxLength && |c.b| == ByteCount(length)
    ensures IsCandidate(c, minLength, maxLength)
  {
  }

  /** `RandomData(value, min_length, max_length, max_mutations, fuzzable,
      step, name)`. Every random draw is a nondeterministic choice within the
      range `random.randint` allows. The candidates are fixed once built.
      With a truthy `step`, `max_mutations` becomes a float and `range()`
      raises; `random.randint(min, max)` raises on an empty range; the name
      is checked last, by the base constructor. */
  method RandomData(value: Value, minLength: int, maxLength: int, maxMutations: int := 25,
                    fuzzable: bool := true, step: Option<int> := None, name: Option<string> := None)
    returns (r: Result<MutantState>)
    ensures step.Some? && step.value != 0 ==> r == Err(TypeError)
    ensures !(step.Some? && step.value != 0) && maxMutations > 0 && minLength > maxLength ==> r == Err(ValueError)
    ensures r.Ok? <==> !(step.Some? && step.value != 0) && (maxMutations <= 0 || minLength <= maxLength)
                       && name.Some? && MatchesName(name.value)
    ensures r.Err? && !(step.Some? && step.value != 0) && (maxMutations <= 0 || minLength <= maxLength)
            ==> r.error == InvalidName
    ensures r.Ok? ==>
      var m := r.value;
      && ValidState(m) && m.index == 0 && m.value == value && m.original == value
      && m.fuzzable == fuzzable
      && |m.library| == (if maxMutations < 0 then 0 else maxMutations)
      && (forall i :: 0 <= i < |m.library| ==> IsCandidate(m.library[i], minLength, maxLength))
  {
    if step.Some? && step.value != 0 {
      return Err(TypeError);
    }
    var count := if maxMutations < 0 then 0 else maxMutations;
    var mutations: seq<Value> := [];
    var n := 0;
    while n < count
      invariant 0 <= n <= count
      invariant |mutations| == n
      invariant forall i :: 0 <= i < n ==> IsCandidate(mutations[i], minLength, maxLength)
      invariant minLength > maxLength ==> n == 0
    {
      if minLength > maxLength {
        return Err(ValueError);
      }
      var length :| minLength <= length <= maxLength;
      var data: bytes := [];
      var i := 0;
      while i < length
        invariant 0 <= i && (length >= 0 ==> i <= length) && (length < 0 ==> i == 0)
        invariant |data| == i
      {
        var b: byte :| true;
        data := data + [b];
        i := i + 1;
      }
      CandidateIsDraw(Bytes(data), minLength, maxLength, length);
      mutations := mutations + [Bytes(data)];
      n := n + 1;
    }
    r := Create(value, name, fuzzable, mutations);
  }

  /** With min_length == max_length == L (L >= 0) every candidate has length
      exactly L, and with 0 <= min_length every length lies in
      [min_length, max_length]. */
  lemma CandidateLength(c: Value, minLength: int, maxLength: int)
    requires IsCandidate(c, minLength, maxLength)
    ensures exists length :: minLength <= length <= maxLength && |c.b| == ByteCount(length)
    ensures 0 <= minLength ==> minLength <= |c.b| <= maxLength
    ensures 0 <= minLength == maxLength ==> |c.b| == minLength
  {
    var length := if |c.b| == 0 then minLength else |c.b|;
    assert minLength <= length <= maxLength && |c.b| == ByteCount(length);
  }
}
