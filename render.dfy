/**
 * What a block produces: `render` with its override short-circuit, its
 * dependency gate and its encoder, the `original_value` property, and
 * `__len__`.
 *
 * Rendering reads the request's name registry, where a dependency gate looks
 * up the current value of another field; here that registry is the `Env`
 * parameter (see `Requests.Request.Env` for how a request builds it).
 */
module Rendering {
  import opened Common
  import opened Mutants
  import opened Blocks

  /** What `render` returns: a value, or Python `None`, which is what a block
      returns when its dependency gate holds (`_render_dep` then falls off its
      end). */
  datatype Out = Produced(v: Value) | Nothing

  /** The name registry as the gate sees it: a registered mutant's current
      value, or None for a registered block, which has no `_value`. */
  type Env = map<string, Option<Value>>

  /** `self.request.names[self.dep]._value`. */
  function DepField(env: Env, dep: string): (r: Result<Value>)
    ensures r.Err? <==> dep !in env || env[dep].None?
    ensures r.Err? ==> r.error == (if dep !in env then KeyError(dep) else AttributeError)
    ensures r.Ok? ==> env[dep] == Some(r.value)
  {
    if dep !in env then Err(KeyError(dep))
    else if env[dep].None? then Err(AttributeError)
    else Ok(env[dep].value)
  }

  /** Python's ordering of two `bytes` or two `str`: lexicographic on the
      byte values or code points, a proper prefix coming first. */
  function LexLt(a: seq<int>, b: seq<int>): bool
  {
    if |b| == 0 then false
    else if |a| == 0 then true
    else if a[0] != b[0] then a[0] < b[0]
    else LexLt(a[1..], b[1..])
  }

  /** The order as it is usually stated: `b` extends `a`, or they first
      differ at a position where `a` holds the smaller element. */
  predicate LexBefore(a: seq<int>, b: seq<int>)
  {
    || (|a| < |b| && a == b[..|a|])
    || exists i :: 0 <= i < |a| && i < |b| && a[..i] == b[..i] && a[i] < b[i]
  }

  /** The element-by-element scan decides exactly that order. */
  lemma {:induction false} LexLtIsLexBefore(a: seq<int>, b: seq<int>)
    ensures LexLt(a, b) <==> LexBefore(a, b)
    decreases |a|
  {
    if |b| == 0 {
    } else if |a| == 0 {
      assert a == b[..0];
    } else if a[0] != b[0] {
      LexBeforeHeads(a, b);
    } else {
      LexLtIsLexBefore(a[1..], b[1..]);
      if LexBefore(a[1..], b[1..]) {
        LexBeforeTails(a, b);
      }
      if LexBefore(a, b) {
        LexBeforeFromTails(a, b);
      }
    }
  }

  /** Different first elements decide the order. */
  lemma LexBeforeHeads(a: seq<int>, b: seq<int>)
    requires |a| > 0 && |b| > 0 && a[0] != b[0]
    ensures LexBefore(a, b) <==> a[0] < b[0]
  {
    if a[0] < b[0] {
      assert a[..0] == b[..0];
    } else {
      forall i | 0 <= i < |a| && i < |b| && a[..i] == b[..i]
        ensures !(a[i] < b[i])
      {
        if i > 0 {
          PrefixHead(a, b, i);
          assert false;
        }
      }
    }
  }

  lemma PrefixHead(a: seq<int>, b: seq<int>, i: nat)
    requires 0 < i <= |a| && i <= |b| && a[..i] == b[..i]
    ensures a[0] == b[0]
  {
    assert a[0] == a[..i][0];
  }

  /** Equal first elements: the order of the rests decides. */
  lemma LexBeforeTails(a: seq<int>, b: seq<int>)
    requires |a| > 0 && |b| > 0 && a[0] == b[0]
    requires LexBefore(a[1..], b[1..])
    ensures LexBefore(a, b)
  {
    var a', b' := a[1..], b[1..];
    assert a == [a[0]] + a' && b == [b[0]] + b';
    if |a'| < |b'| && a' == b'[..|a'|] {
      assert b[..|a|] == [b[0]] + b'[..|a'|];
    } else {
      var i :| 0 <= i < |a'| && i < |b'| && a'[..i] == b'[..i] && a'[i] < b'[i];
      assert a[..i + 1] == [a[0]] + a'[..i] && b[..i + 1] == [b[0]] + b'[..i];
    }
  }

  lemma LexBeforeFromTails(a: seq<int>, b: seq<int>)
    requires |a| > 0 && |b| > 0 && a[0] == b[0]
    requires LexBefore(a, b)
    ensures LexBefore(a[1..], b[1..])
  {
    var a', b' := a[1..], b[1..];
    if |a| < |b| && a == b[..|a|] {
      assert a' == b[..|a|][1..] == b'[..|a'|];
    } else {
      var i :| 0 <= i < |a| && i < |b| && a[..i] == b[..i] && a[i] < b[i];
      assert i > 0;
      assert a'[..i - 1] == a[..i][1..] && b'[..i - 1] == b[..i][1..];
      assert a'[i - 1] < b'[i - 1];
    }
  }

  /** The order is strict and total: exactly one of `a < b`, `a == b`,
      `b < a`. */
  lemma {:induction false} LexTrichotomy(a: seq<int>, b: seq<int>)
    ensures LexLt(a, b) || a == b || LexLt(b, a)
    ensures !(LexLt(a, b) && LexLt(b, a))
    ensures !LexLt(a, a)
    decreases |a|
  {
    if |a| > 0 {
      LexTrichotomy(a[1..], a[1..]);
      if |b| > 0 {
        LexTrichotomy(a[1..], b[1..]);
        if a[0] == b[0] && a[1..] == b[1..] {
          assert a == [a[0]] + a[1..] && b == [b[0]] + b[1..];
        }
      }
    }
  }

  /** The elements a comparison looks at: bytes or code points. */
  function Codes(v: Value): (r: seq<int>)
    ensures v.Bytes? ==> |r| == |v.b| && forall i :: 0 <= i < |r| ==> r[i] == v.b[i] as int
    ensures v.Text? ==> |r| == |v.s| && forall i :: 0 <= i < |r| ==> r[i] == v.s[i] as int
  {
    match v
    case Bytes(b) => seq(|b|, i requires 0 <= i < |b| => b[i] as int)
    case Text(s) => seq(|s|, i requires 0 <= i < |s| => s[i] as int)
  }

  /** The four ordering operators, with `dep_value` on the left. */
  datatype Relation = Below | AtMost | AtLeast | Above

  /** `x <op> y` in Python, for `x` the gate's `dep_value` (possibly None) and
      `y` the field's value: None, or bytes against str, cannot be ordered. */
  function PyOrder(rel: Relation, x: Option<Value>, y: Value): (r: Result<bool>)
    ensures r.Err? <==> x.None? || x.value.Bytes? != y.Bytes?
    ensures r.Err? ==> r.error == TypeError
  {
    if x.None? || x.value.Bytes? != y.Bytes? then Err(TypeError)
    else
      var a := Codes(x.value);
      var b := Codes(y);
      Ok(match rel
         case Below => LexLt(a, b)
         case AtMost => LexLt(a, b) || a == b
         case AtLeast => LexLt(b, a) || a == b
         case Above => LexLt(b, a))
  }

  /** The gate's ordering tests empty the block when the opposite relation
      holds: `>` when `dep_value <= value`, `>=` when `<`, `<` when `>=`,
      `<=` when `>`. */
  function Empties(c: Comparator): Relation
    requires c.Gt? || c.Ge? || c.Lt? || c.Le?
  {
    match c
    case Gt => AtMost
    case Ge => Below
    case Lt => AtLeast
    case Le => Above
  }

  /** `_render_dep`, as its chain of tests runs: Ok(false) when a test empties
      the block (`b""`), Ok(true) when none does (the method returns None).
      The field is looked up only by the test of the block's own operator, so
      an operator outside the six never looks it up. */
  function DepHolds(env: Env, s: Settings): (r: Result<bool>)
    ensures s.compare == Other ==> r == Ok(true)
    ensures r.Err? ==> (DepField(env, s.dep).Err? && r.error == DepField(env, s.dep).error) || r.error == TypeError
  {
    match s.compare
    case Eq =>
      var f := DepField(env, s.dep);
      if f.Err? then Err(f.error)
      else if |s.depValues| > 0 then Ok(f.value in s.depValues)
      else Ok(Some(f.value) == s.depValue)
    case Ne =>
      var f := DepField(env, s.dep);
      if f.Err? then Err(f.error)
      else if |s.depValues| > 0 && f.value in s.depValues then Ok(false)
      else Ok(Some(f.value) != s.depValue)
    case Other => Ok(true)
    case _ =>
      var f := DepField(env, s.dep);
      if f.Err? then Err(f.error)
      else
        var e := PyOrder(Empties(s.compare), s.depValue, f.value);
        if e.Err? then Err(e.error) else Ok(!e.value)
  }

  /** Two values of the same kind with the same elements are equal. */
  lemma CodesInjective(x: Value, y: Value)
    requires x.Bytes? == y.Bytes? && Codes(x) == Codes(y)
    ensures x == y
  {
    if x.Bytes? {
      assert forall i :: 0 <= i < |x.b| ==> x.b[i] as int == Codes(x)[i];
      assert x.b == y.b;
    } else {
      assert forall i :: 0 <= i < |x.s| ==> x.s[i] as int == Codes(x)[i];
      assert x.s == y.s;
    }
  }

  /** The gate's truth table, stated with the operator the block is built
      with. For a field present in the registry with a value `f` and
      `dep_value` `dv`: `==` holds when `f` is among `dep_values`, or, with
      that list empty, when `f == dv`; `!=` holds when `f` is not among
      `dep_values` and `f != dv` (the second test runs whether or not the list
      is empty); an ordering holds when `dv <op> f`, and raises TypeError when
      `dv` is None or of the other kind. A missing field raises KeyError, a
      registered block AttributeError; an operator outside the six always
      holds. */
  lemma DepTable(env: Env, s: Settings)
    ensures s.compare.Other? ==> DepHolds(env, s) == Ok(true)
    ensures !s.compare.Other? && s.dep !in env ==> DepHolds(env, s) == Err(KeyError(s.dep))
    ensures !s.compare.Other? && s.dep in env && env[s.dep].None? ==> DepHolds(env, s) == Err(AttributeError)
    ensures s.dep in env && env[s.dep].Some? ==>
      var f := env[s.dep].value;
      var dv := s.depValue;
      var ordered := dv.Some? && dv.value.Bytes? == f.Bytes?;
      && (s.compare.Eq? ==> DepHolds(env, s) == Ok(if |s.depValues| > 0 then f in s.depValues else dv == Some(f)))
      && (s.compare.Ne? ==> DepHolds(env, s) == Ok(f !in s.depValues && dv != Some(f)))
      && ((s.compare.Gt? || s.compare.Ge? || s.compare.Lt? || s.compare.Le?) && !ordered ==>
            DepHolds(env, s) == Err(TypeError))
      && (s.compare.Gt? && ordered ==> DepHolds(env, s) == Ok(LexLt(Codes(f), Codes(dv.value))))
      && (s.compare.Ge? && ordered ==> DepHolds(env, s) == Ok(LexLt(Codes(f), Codes(dv.value)) || f == dv.value))
      && (s.compare.Lt? && ordered ==> DepHolds(env, s) == Ok(LexLt(Codes(dv.value), Codes(f))))
      && (s.compare.Le? && ordered ==> DepHolds(env, s) == Ok(LexLt(Codes(dv.value), Codes(f)) || f == dv.value))
  {
    if s.dep in env && env[s.dep].Some? && s.depValue.Some? && s.depValue.value.Bytes? == env[s.dep].value.Bytes? {
      var f := env[s.dep].value;
      var d := s.depValue.value;
      LexTrichotomy(Codes(d), Codes(f));
      if Codes(d) == Codes(f) {
        CodesInjective(d, f);
      }
    }
  }

  /** The operators agree with each other: with `dep_values` empty and a
      `dep_value` of the field's kind, exactly one of `>`, `==`, `<` holds;
      `>=` is `>` or `==`, `<=` is `<` or `==`, and `!=` is not `==`. */
  lemma GateOrdering(env: Env, s: Settings)
    requires s.dep in env && env[s.dep].Some? && |s.depValues| == 0
    requires s.depValue.Some? && s.depValue.value.Bytes? == env[s.dep].value.Bytes?
    ensures var gt := DepHolds(env, s.(compare := Gt)).value;
      var eq := DepHolds(env, s.(compare := Eq)).value;
      var lt := DepHolds(env, s.(compare := Lt)).value;
      && (if gt then !eq && !lt else eq != lt)
      && DepHolds(env, s.(compare := Ge)) == Ok(gt || eq)
      && DepHolds(env, s.(compare := Le)) == Ok(lt || eq)
      && DepHolds(env, s.(compare := Ne)) == Ok(!eq)
  {
    var f := env[s.dep].value;
    var d := s.depValue.value;
    DepTable(env, s.(compare := Gt));
    DepTable(env, s.(compare := Eq));
    DepTable(env, s.(compare := Lt));
    DepTable(env, s.(compare := Ge));
    DepTable(env, s.(compare := Le));
    DepTable(env, s.(compare := Ne));
    LexTrichotomy(Codes(d), Codes(f));
  }

  /** An override addressed to this name. */
  predicate Addressed(name: string, replaceNode: Option<string>, replaceValue: Option<bytes>)
  {
    replaceNode.Some? && replaceValue.Some? && replaceNode.value == name
  }

  /** `render(replace_node, replace_value, original)` on any element. A
      block: the override addressed to it wins; a block with a dependency
      renders only its gate's outcome; otherwise the items are rendered in
      stack order with the same arguments and concatenated, and the encoder,
      if any, is applied to the result. Concatenating anything but bytes
      (a raw text original, a gated block's None) raises TypeError. */
  function Render(env: Env, n: Node, replaceNode: Option<string>, replaceValue: Option<bytes>,
                  original: bool): (r: Result<Out>)
    ensures n.Composite? && r.Ok? && r.value.Produced? ==> r.value.v.Bytes?
    ensures n.Composite? && n.settings.dep == "" && r.Ok? ==> r.value.Produced?
    decreases n, 1
  {
    match n
    case Leaf(m) => Ok(Produced(RenderState(m, replaceNode, replaceValue, original)))
    case Composite(s, _, _, stack) =>
      if Addressed(s.name, replaceNode, replaceValue) then Ok(Produced(Bytes(replaceValue.value)))
      else if s.dep != "" then
        match DepHolds(env, s)
        case Err(e) => Err(e)
        case Ok(holds) => if holds then Ok(Nothing) else Ok(Produced(Bytes([])))
      else
        match Body(env, stack, |stack|, replaceNode, replaceValue, original)
        case Err(e) => Err(e)
        case Ok(b) => Ok(Produced(Bytes(if s.encoder.Some? then s.encoder.value(b) else b)))
  }

  /** `self._rendered += item.render(...)` over the first j items: the first
      failure wins. */
  function Body(env: Env, s: seq<Node>, j: nat, replaceNode: Option<string>, replaceValue: Option<bytes>,
                original: bool): (r: Result<bytes>)
    requires j <= |s|
    ensures r.Ok? ==> forall i :: 0 <= i < j ==>
      Render(env, s[i], replaceNode, replaceValue, original).Ok? &&
      Render(env, s[i], replaceNode, replaceValue, original).value.Produced?
    decreases s, 0, j
  {
    if j == 0 then Ok([])
    else
      match Body(env, s, j - 1, replaceNode, replaceValue, original)
      case Err(e) => Err(e)
      case Ok(acc) =>
        match Render(env, s[j - 1], replaceNode, replaceValue, original)
        case Err(e) => Err(e)
        case Ok(Nothing) => Err(TypeError)
        case Ok(Produced(v)) => if v.Bytes? then Ok(acc + v.b) else Err(TypeError)
  }

  /** Whatever the element, an override addressed to its name is what it
      renders, and for a block neither its gate nor its items are looked at. */
  lemma RenderOverride(env: Env, n: Node, rv: bytes, original: bool)
    requires (if n.Leaf? then n.m.name else n.settings.name) != ""
    ensures var name := if n.Leaf? then n.m.name else n.settings.name;
      Render(env, n, Some(name), Some(rv), original) == Ok(Produced(Bytes(rv)))
  {
  }

  /** A block with a dependency renders b"" when its gate fails and None when
      it holds, and the items and encoder play no part: any block with the
      same name and gate renders the same. */
  lemma RenderGated(env: Env, n: Node, x: Node, replaceNode: Option<string>, replaceValue: Option<bytes>,
                    original: bool)
    requires n.Composite? && n.settings.dep != ""
    requires !Addressed(n.settings.name, replaceNode, replaceValue)
    requires x.Composite? && x.settings == n.settings.(encoder := x.settings.encoder)
    ensures Render(env, n, replaceNode, replaceValue, original) ==
      match DepHolds(env, n.settings)
      case Err(e) => Err(e)
      case Ok(holds) => Ok(if holds then Nothing else Produced(Bytes([])))
    ensures Render(env, x, replaceNode, replaceValue, original) == Render(env, n, replaceNode, replaceValue, original)
  {
    assert DepHolds(env, x.settings) == DepHolds(env, n.settings);
  }

  /** No block of the tree has a dependency gate or an encoder. */
  predicate Plain(n: Node)
  {
    match n
    case Leaf(_) => true
    case Composite(s, _, _, stack) =>
      s.dep == "" && s.encoder.None? && forall i :: 0 <= i < |stack| ==> Plain(stack[i])
  }

  /** The encoded current values of the leaves, in stack order. */
  function Contents(n: Node): bytes
    decreases n, 1
  {
    match n
    case Leaf(m) => Encode(m.value)
    case Composite(_, _, _, stack) => ContentsOf(stack, |stack|)
  }

  function ContentsOf(s: seq<Node>, j: nat): bytes
    requires j <= |s|
    decreases s, 0, j
  {
    if j == 0 then [] else ContentsOf(s, j - 1) + Contents(s[j - 1])
  }

  /** Without gates and encoders, a render with no override is the
      concatenation of the encoded current values of the leaves. */
  lemma {:induction false} RenderPlain(env: Env, n: Node)
    requires Plain(n)
    ensures Render(env, n, None, None, false) == Ok(Produced(Bytes(Contents(n))))
    decreases n, 1
  {
    if n.Composite? {
      BodyPlain(env, n.stack, |n.stack|);
    }
  }

  lemma {:induction false} BodyPlain(env: Env, s: seq<Node>, j: nat)
    requires j <= |s| && forall i :: 0 <= i < |s| ==> Plain(s[i])
    ensures Body(env, s, j, None, None, false) == Ok(ContentsOf(s, j))
    decreases s, 0, j
  {
    if j > 0 {
      BodyPlain(env, s, j - 1);
      RenderPlain(env, s[j - 1]);
    }
  }

  /** The `original_value` property: the encoded original of a mutant, the
      concatenation of its items' original values for a block. Gates and
      encoders are not consulted. */
  function OriginalValue(n: Node): bytes
    decreases n, 1
  {
    match n
    case Leaf(m) => Mutants.OriginalValue(m)
    case Composite(_, _, _, stack) => OriginalOf(stack, |stack|)
  }

  function OriginalOf(s: seq<Node>, j: nat): bytes
    requires j <= |s|
    decreases s, 0, j
  {
    if j == 0 then [] else OriginalOf(s, j - 1) + OriginalValue(s[j - 1])
  }

  /** The original value is the contents of the reset tree, whatever the
      cursor: what the tree renders (without gates and encoders) once reset. */
  lemma {:induction false} OriginalIsResetContents(n: Node)
    ensures OriginalValue(n) == Contents(Base(n))
    decreases n, 1
  {
    if n.Composite? {
      OriginalOfBase(n.stack, |n.stack|);
    }
  }

  lemma {:induction false} OriginalOfBase(s: seq<Node>, j: nat)
    requires j <= |s|
    ensures OriginalOf(s, j) == ContentsOf(BaseStack(s), j)
    decreases s, 0, j
  {
    if j > 0 {
      OriginalOfBase(s, j - 1);
      OriginalIsResetContents(s[j - 1]);
      assert BaseStack(s)[j - 1] == Base(s[j - 1]);
    }
  }

  /** Every leaf's original value is bytes. */
  predicate BytesOriginals(n: Node)
  {
    match n
    case Leaf(m) => m.original.Bytes?
    case Composite(_, _, _, stack) => forall i :: 0 <= i < |stack| ==> BytesOriginals(stack[i])
  }

  /** `render(original=True)` of a tree without gates and encoders whose
      originals are all bytes is its `original_value`. */
  lemma {:induction false} RenderOriginal(env: Env, n: Node)
    requires Plain(n) && BytesOriginals(n)
    ensures Render(env, n, None, None, true) == Ok(Produced(Bytes(OriginalValue(n))))
    decreases n, 1
  {
    if n.Composite? {
      BodyOriginal(env, n.stack, |n.stack|);
    }
  }

  lemma {:induction false} BodyOriginal(env: Env, s: seq<Node>, j: nat)
    requires j <= |s| && forall i :: 0 <= i < j ==> Plain(s[i]) && BytesOriginals(s[i])
    ensures Body(env, s, j, None, None, true) == Ok(OriginalOf(s, j))
    decreases s, 0, j
  {
    if j > 0 {
      BodyOriginal(env, s, j - 1);
      RenderOriginal(env, s[j - 1]);
    }
  }

  /** A text original breaks `render(original=True)` of the block holding
      it: the leaf hands back the raw `str`, which cannot be appended to the
      bytes rendered before it, while `original_value` encodes it. */
  lemma TextOriginalFails(env: Env, n: Node, i: nat)
    requires n.Composite? && n.settings.dep == "" && i < |n.stack|
    requires n.stack[i].Leaf? && n.stack[i].m.original.Text?
    requires forall k :: 0 <= k < i ==> Plain(n.stack[k]) && BytesOriginals(n.stack[k])
    ensures Render(env, n, None, None, true) == Err(TypeError)
    ensures OriginalValue(n.stack[i]) == Utf8(n.stack[i].m.original.s)
  {
    BodyTextFails(env, n.stack, i, |n.stack|);
  }

  /** Once the text original is reached, the concatenation has failed, and
      it stays failed. */
  lemma {:induction false} BodyTextFails(env: Env, s: seq<Node>, i: nat, j: nat)
    requires i < j <= |s|
    requires s[i].Leaf? && s[i].m.original.Text?
    requires forall k :: 0 <= k < i ==> Plain(s[k]) && BytesOriginals(s[k])
    ensures Body(env, s, j, None, None, true) == Err(TypeError)
  {
    if j == i + 1 {
      BodyOriginal(env, s, i);
    } else {
      BodyTextFails(env, s, i, j - 1);
    }
  }

  /** `len()` of an element. A mutant: the length of its current value (code
      points for text). A block with an encoder: the length of its render,
      where None raises TypeError. A block without one: the sum of the
      lengths of its items' renders, in stack order. */
  function Length(env: Env, n: Node): Result<nat>
  {
    match n
    case Leaf(m) => Ok(match m.value case Bytes(b) => |b| case Text(t) => |t|)
    case Composite(s, _, _, stack) =>
      if s.encoder.Some? then
        match Render(env, n, None, None, false)
        case Err(e) => Err(e)
        case Ok(Nothing) => Err(TypeError)
        case Ok(Produced(v)) => Ok(|Encode(v)|)
      else SumLengths(env, stack, |stack|)
  }

  /** `sum(len(item.render()) for item in stack[:j])`. */
  function SumLengths(env: Env, s: seq<Node>, j: nat): Result<nat>
    requires j <= |s|
  {
    if j == 0 then Ok(0)
    else
      match SumLengths(env, s, j - 1)
      case Err(e) => Err(e)
      case Ok(total) =>
        match Render(env, s[j - 1], None, None, false)
        case Err(e) => Err(e)
        case Ok(Nothing) => Err(TypeError)
        case Ok(Produced(v)) => Ok(total + |Encode(v)|)
  }

  /** A render without override or `original` never hands back raw text. */
  lemma PlainRenderIsBytes(env: Env, n: Node)
    ensures var r := Render(env, n, None, None, false); r.Ok? && r.value.Produced? ==> r.value.v.Bytes?
  {
  }

  /** Summing the items' lengths agrees with rendering them: same error, or
      the length of the concatenation. */
  lemma {:induction false} SumLengthsIsBodySize(env: Env, s: seq<Node>, j: nat)
    requires j <= |s|
    ensures SumLengths(env, s, j) ==
      match Body(env, s, j, None, None, false)
      case Err(e) => Err(e)
      case Ok(b) => Ok(|b|)
  {
    if j > 0 {
      SumLengthsIsBodySize(env, s, j - 1);
      PlainRenderIsBytes(env, s[j - 1]);
    }
  }

  /** For a block without a dependency, `len()` is the size of its render,
      and it fails exactly when the render does, with the same error. */
  lemma LengthIsRenderSize(env: Env, n: Node)
    requires n.Composite? && n.settings.dep == ""
    ensures Length(env, n) ==
      match Render(env, n, None, None, false)
      case Err(e) => Err(e)
      case Ok(out) => if out.Produced? then Ok(|Encode(out.v)|) else Err(TypeError)
  {
    SumLengthsIsBodySize(env, n.stack, |n.stack|);
  }

  /** Without an encoder, `len()` ignores the block's own dependency: a block
      whose gate empties it renders b"" while its length is still the size
      of its items' concatenation, or the error that concatenation raises. */
  lemma LengthIgnoresGate(env: Env, n: Node)
    requires n.Composite? && n.settings.dep != "" && n.settings.encoder.None?
    requires DepHolds(env, n.settings) == Ok(false)
    ensures Render(env, n, None, None, false) == Ok(Produced(Bytes([])))
    ensures Length(env, n) ==
      match Body(env, n.stack, |n.stack|, None, None, false)
      case Err(e) => Err(e)
      case Ok(b) => Ok(|b|)
  {
    SumLengthsIsBodySize(env, n.stack, |n.stack|);
  }

  /** `len()` of a text mutant counts code points, while its render is the
      UTF-8 encoding: the two agree exactly when the text is ASCII. */
  lemma TextLength(env: Env, m: MutantState)
    requires m.value.Text?
    ensures Length(env, Leaf(m)) == Ok(|m.value.s|)
    ensures Render(env, Leaf(m), None, None, false) == Ok(Produced(Bytes(Utf8(m.value.s))))
    ensures |m.value.s| <= |Utf8(m.value.s)|
    ensures |Utf8(m.value.s)| == |m.value.s| <==> forall i :: 0 <= i < |m.value.s| ==> m.value.s[i] as int < 0x80
  {
    Utf8Size(m.value.s);
  }

  /** "é" is one code point and two bytes. */
  lemma TextLengthExample(env: Env, name: string)
    ensures var n := Leaf(MutantState(name, Text("é"), [], false, Text("é"), 0, true));
      Length(env, n) == Ok(1) && Render(env, n, None, None, false) == Ok(Produced(Bytes([0xC3, 0xA9])))
  {
    assert "é"[..0] == "";
    assert Utf8Char('é') == [0xC3, 0xA9];
    assert Utf8("é") == [0xC3, 0xA9];
  }
}
