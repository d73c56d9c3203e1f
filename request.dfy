/**
 * The top-level container: a Request is a block that also keeps the
 * registry of the names pushed into it, the stack of blocks still open, the
 * mutant currently being changed, and the response parsers attached to it.
 *
 * The registry maps a name to the path of its element from the request's
 * own block. The module-level table of all requests, `REQUESTS`, is a
 * parameter mapping each request name to its registry.
 */
module Requests {
  import opened Common
  import opened Mutants
  import opened Blocks
  import opened Rendering
  import opened Tree

  /** `Request._path_name_re`: `^(?P<request>W+)(?:[.](?P<mutant>W+))?$`
      for W the word class of the name pattern; `$` also matches before one
      final newline. */
  function ParsePath(s: string): (r: Result<(string, Option<string>)>)
    ensures r.Err? ==> r.error == InvalidPath(s)
  {
    var n := WordPrefix(s);
    var rest := s[n..];
    if n == 0 then Err(InvalidPath(s))
    else if rest == "" || rest == "\n" then Ok((s[..n], None))
    else if rest[0] != '.' then Err(InvalidPath(s))
    else
      var tail := rest[1..];
      var m := WordPrefix(tail);
      if m > 0 && (tail[m..] == "" || tail[m..] == "\n") then Ok((s[..n], Some(tail[..m])))
      else Err(InvalidPath(s))
  }

  /** The path text `request` or `request.mutant`. */
  function PathText(request: string, mutant: Option<string>): string
  {
    if mutant.None? then request else request + "." + mutant.value
  }

  /** The greedy word run stops exactly at the end of a word followed by a
      character outside the class. */
  lemma {:induction false} WordPrefixOf(w: string, rest: string)
    requires IsWord(w) && (rest == [] || !IsWordChar(rest[0]))
    ensures WordPrefix(w + rest) == |w|
    decreases |w|
  {
    if |w| > 1 {
      assert (w + rest)[1..] == w[1..] + rest;
      WordPrefixOf(w[1..], rest);
    } else {
      assert (w + rest)[1..] == rest;
    }
  }

  /** Every accepted path is `request` or `request.mutant`, two words,
      possibly followed by one newline. */
  lemma ParsePathSound(s: string)
    requires ParsePath(s).Ok?
    ensures var (request, mutant) := ParsePath(s).value;
      && IsWord(request) && (mutant.Some? ==> IsWord(mutant.value))
      && (s == PathText(request, mutant) || s == PathText(request, mutant) + "\n")
  {
    var n := WordPrefix(s);
    var rest := s[n..];
    assert n > 0 && s == s[..n] + rest;
    assert IsWord(s[..n]);
    if rest == "" || rest == "\n" {
      assert ParsePath(s).value == (s[..n], None);
    } else {
      var tail := rest[1..];
      var m := WordPrefix(tail);
      assert rest[0] == '.' && rest == "." + tail;
      assert m > 0 && (tail[m..] == "" || tail[m..] == "\n");
      assert ParsePath(s).value == (s[..n], Some(tail[..m]));
      assert IsWord(tail[..m]);
      SplitDotted(s[..n], tail, m);
    }
  }

  /** A word, a dot and a tail cut at `m` reassemble into the whole. */
  lemma SplitDotted(w: string, tail: string, m: nat)
    requires m <= |tail|
    ensures w + ("." + tail) == w + "." + tail[..m] + tail[m..]
  {
    assert tail == tail[..m] + tail[m..];
  }

  /** Every `request` or `request.mutant` of two words, with or without one
      final newline, is accepted and split back into its words. */
  lemma ParsePathComplete(request: string, mutant: Option<string>, newline: bool)
    requires IsWord(request) && (mutant.Some? ==> IsWord(mutant.value))
    ensures ParsePath(PathText(request, mutant) + (if newline then "\n" else "")) == Ok((request, mutant))
  {
    if mutant.None? {
      ParseRequestOnly(request, if newline then "\n" else "");
    } else {
      ParseRequestMutant(request, mutant.value, if newline then "\n" else "");
    }
  }

  lemma ParseRequestOnly(request: string, nl: string)
    requires IsWord(request) && (nl == "" || nl == "\n")
    ensures ParsePath(request + nl) == Ok((request, None))
  {
    var s := request + nl;
    WordPrefixOf(request, nl);
    assert s[..|request|] == request && s[|request|..] == nl;
  }

  lemma ParseRequestMutant(request: string, w: string, nl: string)
    requires IsWord(request) && IsWord(w) && (nl == "" || nl == "\n")
    ensures ParsePath(request + "." + w + nl) == Ok((request, Some(w)))
  {
    var s := request + "." + w + nl;
    var rest := "." + w + nl;
    var tail := w + nl;
    assert s == request + rest;
    WordPrefixOf(request, rest);
    assert s[..|request|] == request && s[|request|..] == rest;
    assert rest[0] == '.' && rest[1..] == tail;
    WordPrefixOf(w, nl);
    assert tail[..|w|] == w && tail[|w|..] == nl;
    assert WordPrefix(s) == |request| && s[WordPrefix(s)..] == rest && rest != "" && rest != "\n";
  }

  /** What a lookup finds: a whole request, or an element of one. */
  datatype Found = WholeRequest(request: string) | Element(request: string, at: Path)

  /** The registry of every request: request name to its name registry. */
  type Registry = map<string, map<string, Path>>

  /** `get_mutant_by_path`: parse the path, find the request, then the
      mutant in its registry. */
  function GetMutantByPath(registry: Registry, path: string): (r: Result<Found>)
    ensures ParsePath(path).Err? ==> r == Err(InvalidPath(path))
    ensures r.Ok? ==> ParsePath(path).Ok? && r.value.request == ParsePath(path).value.0 && r.value.request in registry
    ensures r.Ok? && r.value.Element? ==>
      var mutant := ParsePath(path).value.1;
      mutant.Some? && mutant.value in registry[r.value.request] && r.value.at == registry[r.value.request][mutant.value]
  {
    match ParsePath(path)
    case Err(e) => Err(e)
    case Ok((request, mutant)) =>
      if request !in registry then Err(RequestNotFound(request))
      else if mutant.None? then Ok(WholeRequest(request))
      else if mutant.value in registry[request] then Ok(Element(request, registry[request][mutant.value]))
      else Err(MutantNotFound(mutant.value))
  }

  /** The lookup in both directions: a well-formed path finds what the
      registry holds under its words, and fails naming the missing part;
      anything else is an invalid path. */
  lemma LookupByPath(registry: Registry, request: string, mutant: Option<string>)
    requires IsWord(request) && (mutant.Some? ==> IsWord(mutant.value))
    ensures var r := GetMutantByPath(registry, PathText(request, mutant));
      && (request !in registry ==> r == Err(RequestNotFound(request)))
      && (request in registry && mutant.None? ==> r == Ok(WholeRequest(request)))
      && (request in registry && mutant.Some? && mutant.value in registry[request] ==>
            r == Ok(Element(request, registry[request][mutant.value])))
      && (request in registry && mutant.Some? && mutant.value !in registry[request] ==>
            r == Err(MutantNotFound(mutant.value)))
  {
    ParsePathComplete(request, mutant, false);
    assert PathText(request, mutant) + "" == PathText(request, mutant);
  }

  /** A path that is not `request` or `request.mutant` is refused, before
      any registry is consulted. */
  lemma LookupInvalid(registry: Registry, path: string)
    requires !exists request: string, mutant: Option<string> ::
      IsWord(request) && (mutant.Some? ==> IsWord(mutant.value)) &&
      (path == PathText(request, mutant) || path == PathText(request, mutant) + "\n")
    ensures GetMutantByPath(registry, path) == Err(InvalidPath(path))
  {
    if ParsePath(path).Ok? {
      ParsePathSound(path);
    }
  }

  /** A response parser handed to `add_response`, known by its identity. */
  type ResponseId = nat

  /** The first parser in `ids` that accepts `data` (a `parse` that raises
      the runtime error is None here). */
  function FirstParse<T>(ids: seq<ResponseId>, data: bytes, parse: (ResponseId, bytes) -> Option<T>): (r: Option<T>)
    ensures r.Some? ==> exists i :: 0 <= i < |ids| && parse(ids[i], data) == r
  {
    if ids == [] then None
    else if parse(ids[0], data).Some? then parse(ids[0], data)
    else FirstParse(ids[1..], data, parse)
  }

  /** The first accepting parser wins: the result is what parser i gives
      exactly when i accepts and every earlier one rejects, and there is no
      result exactly when every parser rejects. */
  lemma {:induction false} FirstParseIsFirst<T>(ids: seq<ResponseId>, data: bytes,
                                                parse: (ResponseId, bytes) -> Option<T>, i: nat)
    ensures FirstParse(ids, data, parse).None? <==> forall k :: 0 <= k < |ids| ==> parse(ids[k], data).None?
    ensures i < |ids| && parse(ids[i], data).Some? && (forall k :: 0 <= k < i ==> parse(ids[k], data).None?)
            ==> FirstParse(ids, data, parse) == parse(ids[i], data)
    decreases |ids|
  {
    if ids != [] {
      FirstParseIsFirst(ids[1..], data, parse, if i > 0 then i - 1 else 0);
      assert forall k :: 1 <= k < |ids| ==> ids[1..][k - 1] == ids[k];
      if i > 0 && i < |ids| && (forall k :: 0 <= k < i ==> parse(ids[k], data).None?) {
        assert forall k :: 0 <= k < i - 1 ==> ids[1..][k] == ids[k + 1];
      }
    }
  }

  /** The request's block as its constructor builds it: a name, and no
      encoder and no dependency. */
  function RequestSettings(name: string): Settings
  {
    Settings(name, None, "", Eq, None, [])
  }

  /** The registry as the dependency gates see it in tree state `root`. */
  function EnvOf(names: map<string, Path>, root: Node): Env
  {
    map name | name in names ::
      match NodeAt(root, names[name])
      case Some(Leaf(m)) => Some(m.value)
      case _ => None
  }

  /** The gate's lookup `request.names[dep]._value` in tree state `root`: an
      unregistered name raises KeyError, a registered mutant gives its
      current value, and a registered block has no `_value`. */
  lemma EnvLookup(names: map<string, Path>, root: Node, dep: string)
    ensures dep !in names ==> DepField(EnvOf(names, root), dep) == Err(KeyError(dep))
    ensures dep in names && NodeAt(root, names[dep]).Some? && NodeAt(root, names[dep]).value.Leaf? ==>
              DepField(EnvOf(names, root), dep) == Ok(NodeAt(root, names[dep]).value.m.value)
    ensures dep in names && (NodeAt(root, names[dep]).None? || NodeAt(root, names[dep]).value.Composite?) ==>
              DepField(EnvOf(names, root), dep) == Err(AttributeError)
  {
  }

  /** `render()` of the request in tree state `root`: always bytes when it
      succeeds, as the request's block has no dependency. */
  function RenderIn(names: map<string, Path>, root: Node): Result<bytes>
    requires root.Composite? && root.settings.dep == ""
  {
    match Render(EnvOf(names, root), root, None, None, false)
    case Err(e) => Err(e)
    case Ok(out) => Ok(out.v.b)
  }

  /** The stack positions the suspended generators delegate through, from
      `n` down: each block's generator names the item it is running. */
  function DelegationPath(n: Node): Path
  {
    match n
    case Leaf(_) => []
    case Composite(_, _, gen, stack) =>
      if gen.Delegating? && gen.child < |stack| then [gen.child] + DelegationPath(stack[gen.child]) else []
  }

  /** In one `next()`, every block below `n` that the generators delegate
      through runs `yield self.render()` before its parent resumes, innermost
      first, and an exception ends the whole chain: the first of those
      renders that raises. */
  function ChainFailure(env: Env, n: Node): Option<Error>
  {
    match n
    case Leaf(_) => None
    case Composite(_, _, gen, stack) =>
      if gen.Delegating? && gen.child < |stack| && stack[gen.child].Composite? then
        var c := stack[gen.child];
        match ChainFailure(env, c)
        case Some(e) => Some(e)
        case None =>
          match Render(env, c, None, None, false)
          case Err(e) => Some(e)
          case Ok(_) => None
      else None
  }

  /** A node on the delegation path exists and, when it is a block, renders
      without raising. */
  ghost predicate RendersOnChain(env: Env, x: Option<Node>)
  {
    x.Some? && (x.value.Composite? ==> Render(env, x.value, None, None, false).Ok?)
  }

  /** The chain fails exactly when one of the blocks on the delegation path
      below `n` fails to render. */
  lemma {:induction false} ChainFailureNone(env: Env, n: Node)
    ensures ChainFailure(env, n).None? <==>
      forall i :: 0 < i <= |DelegationPath(n)| ==> RendersOnChain(env, NodeAt(n, DelegationPath(n)[..i]))
    decreases n
  {
    if n.Composite? && n.gen.Delegating? && n.gen.child < |n.stack| {
      var j := n.gen.child;
      var c := n.stack[j];
      var p := DelegationPath(n);
      var q := DelegationPath(c);
      assert p == [j] + q;
      ChainFailureNone(env, c);
      forall i | 0 < i <= |p|
        ensures NodeAt(n, p[..i]) == NodeAt(c, q[..i - 1])
      {
        assert p[..i] == [j] + q[..i - 1];
        NodeAtStep(n, j, q[..i - 1]);
      }
      assert q[..0] == [];
      assert NodeAt(c, []) == Some(c);
      assert NodeAt(n, p[..1]) == Some(c);
      if forall i :: 0 < i <= |p| ==> RendersOnChain(env, NodeAt(n, p[..i])) {
        forall i | 0 < i <= |q|
          ensures RendersOnChain(env, NodeAt(c, q[..i]))
        {
          assert NodeAt(n, p[..i + 1]) == NodeAt(c, q[..i]);
        }
        assert RendersOnChain(env, Some(c));
      }
      if RendersOnChain(env, Some(c)) && forall i :: 0 < i <= |q| ==> RendersOnChain(env, NodeAt(c, q[..i])) {
        forall i | 0 < i <= |p|
          ensures RendersOnChain(env, NodeAt(n, p[..i]))
        {
          if i > 1 {
            assert RendersOnChain(env, NodeAt(c, q[..i - 1]));
          }
        }
      }
    }
  }

  /** Without gates and encoders no block on the chain raises. */
  lemma {:induction false} ChainPlain(env: Env, n: Node)
    requires Plain(n)
    ensures ChainFailure(env, n).None?
    decreases n
  {
    if n.Composite? && n.gen.Delegating? && n.gen.child < |n.stack| && n.stack[n.gen.child].Composite? {
      ChainPlain(env, n.stack[n.gen.child]);
      RenderPlain(env, n.stack[n.gen.child]);
    }
  }

  /** What one `next()` of the request's generator yields in tree state
      `root`: the first exception raised by the renders of the blocks it
      delegates through, innermost first, or else the render of the
      request. */
  function YieldIn(names: map<string, Path>, root: Node): Result<bytes>
    requires root.Composite? && root.settings.dep == ""
  {
    match ChainFailure(EnvOf(names, root), root)
    case Some(e) => Err(e)
    case None => RenderIn(names, root)
  }

  /** Without gates and encoders, a step yields the encoded current values of
      the request's mutants. */
  lemma YieldPlain(names: map<string, Path>, root: Node)
    requires root.Composite? && Plain(root)
    ensures YieldIn(names, root) == Ok(Contents(root))
  {
    ChainPlain(EnvOf(names, root), root);
    RenderPlain(EnvOf(names, root), root);
  }

  /** A nested render can raise where the request's own render does not: a
      block whose gate fails renders b"" without looking at its items, yet
      the block inside it, on the delegation chain, renders itself and its
      gate looks up a name that is not registered. */
  lemma NestedRenderRaises(a: Settings, b: Settings, m: MutantState)
    requires a.dep == "x" && a.compare == Eq && a.depValues == [] && a.depValue == Some(Bytes([0x7a]))
    requires b.dep == "missing" && b.compare == Eq
    ensures var env: Env := map["x" := Some(Bytes([0x61]))];
      var inner := Composite(b, 1, Delegating(0), [Leaf(m)]);
      var outer := Composite(a, 1, Delegating(0), [inner]);
      var root := Composite(RequestSettings("r"), 1, Delegating(0), [outer]);
      && Render(env, root, None, None, false) == Ok(Produced(Bytes([])))
      && ChainFailure(env, root) == Some(KeyError("missing"))
  {
    var env: Env := map["x" := Some(Bytes([0x61]))];
    var inner := Composite(b, 1, Delegating(0), [Leaf(m)]);
    var outer := Composite(a, 1, Delegating(0), [inner]);
    assert DepHolds(env, a) == Ok(false);
    assert Render(env, outer, None, None, false) == Ok(Produced(Bytes([])));
    var out := Render(env, [outer][0], None, None, false);
    assert out == Ok(Produced(Bytes([])));
    var acc := Body(env, [outer], 0, None, None, false);
    assert acc == Ok([]);
    assert acc.value + out.value.v.b == [];
    assert Body(env, [outer], 1, None, None, false) == Ok([]);
    assert DepHolds(env, b) == Err(KeyError("missing"));
    assert ChainFailure(env, inner) == None;
    assert Render(env, inner, None, None, false) == Err(KeyError("missing"));
    assert ChainFailure(env, outer) == Some(KeyError("missing"));
  }

  /** What the request's generator yields after the k-th mutation of the
      enumeration of `t`. */
  function RenderAfter(names: map<string, Path>, t: Node, k: nat): Result<bytes>
    requires t.Composite? && t.settings.dep == "" && k <= Blocks.NumMutations(t)
  {
    YieldIn(names, At(t, k))
  }

  /** The render of the request after each mutation of the enumeration of
      `t`: entry i is the state after the (i + 1)-th. */
  function Renders(names: map<string, Path>, t: Node): (rs: seq<Result<bytes>>)
    requires t.Composite? && t.settings.dep == ""
    ensures |rs| == Blocks.NumMutations(t)
    ensures forall i :: 0 <= i < |rs| ==> rs[i] == RenderAfter(names, t, i + 1)
  {
    var n := Blocks.NumMutations(t);
    seq(n, i requires 0 <= i < n => RenderAfter(names, t, i + 1))
  }

  lemma RendersAt(names: map<string, Path>, t: Node, i: nat)
    requires t.Composite? && t.settings.dep == "" && i < Blocks.NumMutations(t)
    ensures Renders(names, t)[i] == YieldIn(names, At(t, i + 1))
  {
  }

  /** Among the (lo + 1)-th .. hi-th renders, the number of the first that
      fails. */
  function FirstFailure(rs: seq<Result<bytes>>, lo: nat, hi: nat): (r: Option<nat>)
    requires hi <= |rs|
    ensures r.Some? ==> lo < r.value <= hi && rs[r.value - 1].Err?
    ensures forall i :: lo <= i < hi && (r.None? || i + 1 < r.value) ==> rs[i].Ok?
    decreases hi - lo
  {
    if lo >= hi then None
    else if rs[lo].Err? then Some(lo + 1)
    else FirstFailure(rs, lo + 1, hi)
  }

  /** The (k + 1)-th .. last renders, when none of them fails: what draining
      the generator from the k-th mutation on yields. */
  function Outputs(rs: seq<Result<bytes>>, k: nat): (r: seq<bytes>)
    requires k <= |rs| && forall i :: k <= i < |rs| ==> rs[i].Ok?
    ensures |r| == |rs| - k
    ensures forall i :: 0 <= i < |r| ==> Ok(r[i]) == rs[k + i]
  {
    seq(|rs| - k, i requires 0 <= i < |rs| - k => rs[k + i].value)
  }

  /** With no failure from the (i + 1)-th render on, the outputs from i
      are the i-th render followed by the outputs from i + 1. */
  lemma OutputsCons(rs: seq<Result<bytes>>, i: nat)
    requires i < |rs| && FirstFailure(rs, i, |rs|).None?
    ensures FirstFailure(rs, i + 1, |rs|).None? && rs[i].Ok?
    ensures forall j :: i <= j < |rs| ==> rs[j].Ok?
    ensures Outputs(rs, i) == [rs[i].value] + Outputs(rs, i + 1)
  {
    var a := Outputs(rs, i);
    var b := [rs[i].value] + Outputs(rs, i + 1);
    forall j | 0 <= j < |a|
      ensures a[j] == b[j]
    {
      if j > 0 {
        assert b[j] == Outputs(rs, i + 1)[j - 1];
      }
    }
  }

  /** Failures over lo+1 .. |rs| split at k: the first failure up to k, if
      any, is the first overall; otherwise the first one after k is. */
  lemma {:induction false} FirstFailureSplit(rs: seq<Result<bytes>>, lo: nat, k: nat)
    requires lo <= k <= |rs|
    ensures FirstFailure(rs, lo, |rs|) ==
      if FirstFailure(rs, lo, k).Some? then FirstFailure(rs, lo, k) else FirstFailure(rs, k, |rs|)
    decreases k - lo
  {
    if lo < k {
      FirstFailureSplit(rs, lo + 1, k);
    }
  }

  /** Where a run of the request's enumeration leaves it: what the run
      returns, and the number of mutations of the state it stops in, 0
      being the reset tree. */
  datatype Outcome<T> = Outcome(result: Result<T>, pos: nat)

  /** The request's mutant in the state after k mutations of `t`: none in
      the reset state. */
  function MutantAfter(t: Node, k: nat): Option<Path>
    requires k <= Blocks.NumMutations(t)
  {
    if k == 0 then None else Some(Active(t, k, []))
  }

  /** Draining the generator from the state after i mutations: each
      remaining render in turn, stopping at the first that fails; at the
      end the generator resets the request. */
  function DrainFrom(rs: seq<Result<bytes>>, i: nat): (o: Outcome<seq<bytes>>)
    requires i <= |rs|
    ensures o.pos <= |rs|
    decreases |rs| - i
  {
    if i == |rs| then Outcome(Ok([]), 0)
    else if rs[i].Err? then Outcome(Err(rs[i].error), i + 1)
    else
      var o := DrainFrom(rs, i + 1);
      match o.result
      case Ok(more) => Outcome(Ok([rs[i].value] + more), o.pos)
      case Err(_) => o
  }

  /** A render that succeeds is output ahead of the rest of the drain,
      which decides where it stops. */
  lemma DrainFromOk(rs: seq<Result<bytes>>, i: nat)
    requires i < |rs| && rs[i].Ok?
    ensures var o := DrainFrom(rs, i + 1);
      DrainFrom(rs, i) == if o.result.Ok? then Outcome(Ok([rs[i].value] + o.result.value), o.pos) else o
  {
  }

  /** Draining yields every remaining render and ends reset when none
      fails, and otherwise stops in the state whose render fails first,
      with its error. */
  lemma {:induction false} DrainFromIs(rs: seq<Result<bytes>>, i: nat)
    requires i <= |rs|
    ensures var f := FirstFailure(rs, i, |rs|);
      DrainFrom(rs, i) ==
        if f.None? then Outcome(Ok(Outputs(rs, i)), 0) else Outcome(Err(rs[f.value - 1].error), f.value)
    decreases |rs| - i
  {
    if i < |rs| && rs[i].Ok? {
      DrainFromIs(rs, i + 1);
      if FirstFailure(rs, i, |rs|).None? {
        OutputsCons(rs, i);
      }
    }
  }

  /** One `next()` of the request's enumeration from the state after i
      mutations: the next state and its mutant, or, after the last, the reset
      tree with no mutant. */
  lemma EnumerationStep(t: Node, i: nat)
    requires t.Composite? && Base(t) == t && i <= Blocks.NumMutations(t)
    ensures WF(At(t, i))
    ensures Step(At(t, i), [], MutantAfter(t, i)) ==
      if i < Blocks.NumMutations(t) then StepResult(At(t, i + 1), true, MutantAfter(t, i + 1))
      else StepResult(At(t, 0), false, MutantAfter(t, 0))
  {
    AtFacts(t, i);
    var mutant := MutantAfter(t, i);
    if i < Blocks.NumMutations(t) {
      StepAdvances(t, i, [], mutant);
    } else {
      StepFinishes(t, [], mutant);
    }
  }

  /** The top of the open-block stack, or the request itself. */
  function Target(blockStack: seq<Path>): Path
  {
    if blockStack == [] then [] else blockStack[|blockStack| - 1]
  }

  /** `push(item)` into the innermost open block keeps the request's block
      as built, the tree well formed and the registry and open blocks
      pointing at the right elements, and places the item last in that
      block. */
  lemma PushKeepsValid(root: Node, names: map<string, Path>, blockStack: seq<Path>, item: Node)
    requires root.Composite? && WF(root) && Registered(root, names, blockStack) && WF(item)
    ensures IsBlockAt(root, Target(blockStack))
    ensures var target := Target(blockStack);
      var at := target + [|NodeAt(root, target).value.stack|];
      var root' := AppendAt(root, target, item);
      && root'.Composite? && root'.settings == root.settings && WF(root')
      && NodeAt(root', at) == Some(item)
      && Registered(root', if NodeName(item) != "" then names[NodeName(item) := at] else names,
                    if item.Composite? then blockStack + [at] else blockStack)
  {
    var target := Target(blockStack);
    assert IsBlockAt(root, target);
    AppendPlaces(root, target, item);
    AppendWF(root, target, item);
    AppendRegistered(root, names, blockStack, target, item);
  }

  class Request {
    /** The request's own block: its settings, index, generator and stack. */
    var root: Node
    /** `names`: name to the path of the element pushed with it. */
    var names: map<string, Path>
    /** `mutant`: the mutant currently being changed. */
    var mutant: Option<Path>
    /** `block_stack`: the open blocks, innermost last. */
    var blockStack: seq<Path>
    var responses: seq<ResponseId>
    /** The request's generator has raised and is finished: until `reset` or
        `goto` replaces it, `next()` raises StopIteration. */
    var finished: bool

    /** The request's block is built by its constructor, every mutant is in
        a state its methods keep, every registered name leads to an element
        of that name, and every open block is a block of the tree. */
    ghost predicate Valid()
      reads this
    {
      && root.Composite? && root.settings == RequestSettings(root.settings.name) && WF(root)
      && Registered(root, names, blockStack)
    }

    /** `Request(name)`: an empty block, nothing registered, nothing open. */
    constructor (name: string)
      ensures Valid()
      ensures root == Composite(RequestSettings(name), 0, Fresh, [])
      ensures names == map[] && mutant == None && blockStack == [] && responses == [] && !finished
    {
      root := Composite(RequestSettings(name), 0, Fresh, []);
      names := map[];
      mutant := None;
      blockStack := [];
      responses := [];
      finished := false;
    }

    /** The registry as the dependency gates see it. */
    function Env(): Env
      reads this
    {
      EnvOf(names, root)
    }

    /** `push(item)`: a named item whose name is taken is refused and nothing
        changes; otherwise the name is registered, the item appended to the
        innermost open block (or to the request), and a block item becomes
        the innermost open block. */
    method Push(item: Node) returns (r: Result<()>)
      requires Valid() && WF(item)
      modifies this
      ensures Valid()
      ensures r.Err? <==> NodeName(item) != "" && NodeName(item) in old(names)
      ensures r.Err? ==> r.error == DuplicateName(NodeName(item)) && unchanged(this)
      ensures r.Ok? ==>
        var target := Target(old(blockStack));
        var at := target + [|NodeAt(old(root), target).value.stack|];
        && root == AppendAt(old(root), target, item)
        && NodeAt(root, at) == Some(item)
        && names == (if NodeName(item) != "" then old(names)[NodeName(item) := at] else old(names))
        && blockStack == old(blockStack) + (if item.Composite? then [at] else [])
        && mutant == old(mutant) && responses == old(responses)
      ensures finished == old(finished)
    {
      var name := NodeName(item);
      if name != "" && name in names {
        return Err(DuplicateName(name));
      }
      var target := Target(blockStack);
      PushKeepsValid(root, names, blockStack, item);
      var at := target + [|NodeAt(root, target).value.stack|];
      var root' := AppendAt(root, target, item);
      if name != "" {
        names := names[name := at];
      }
      root := root';
      if item.Composite? {
        blockStack := blockStack + [at];
      }
      return Ok(());
    }

    /** `pop()`: closes the innermost open block; with none open the stack
        is out of sync. */
    method Pop() returns (r: Result<()>)
      requires Valid()
      modifies this
      ensures Valid()
      ensures r.Err? <==> old(blockStack) == []
      ensures r.Err? ==> r.error == BlockStackOutOfSync && unchanged(this)
      ensures r.Ok? ==> blockStack == old(blockStack)[..|old(blockStack)| - 1]
      ensures root == old(root) && names == old(names) && mutant == old(mutant) && responses == old(responses)
      ensures finished == old(finished)
    {
      if blockStack == [] {
        return Err(BlockStackOutOfSync);
      }
      blockStack := blockStack[..|blockStack| - 1];
      return Ok(());
    }

    /** Stepping moves no element: the paths, names and kinds of the tree
        stay, so the registry and the open blocks stay valid. */
    lemma KeepsShape(root': Node)
      requires Valid() && WF(root') && Base(root') == Base(root)
      ensures root'.Composite? && root'.settings == root.settings
      ensures Registered(root', names, blockStack)
    {
      forall q | true
        ensures NodeAt(root', q).Some? == NodeAt(root, q).Some?
        ensures NodeAt(root', q).Some? ==>
          NodeName(NodeAt(root', q).value) == NodeName(NodeAt(root, q).value)
          && NodeAt(root', q).value.Composite? == NodeAt(root, q).value.Composite?
      {
        SameShape(root', root, q);
      }
      assert NodeAt(root', []) == Some(root') && NodeAt(root, []) == Some(root);
    }

    /** `reset()`: `goto(0)`: the request's mutant is cleared and the tree
        returns to its reset form with a fresh generator. */
    method Reset()
      requires Valid()
      modifies this
      ensures Valid() && root == Base(old(root)) && mutant == None && !finished
      ensures names == old(names) && blockStack == old(blockStack) && responses == old(responses)
    {
      ResetIsBase(root);
      BaseWF(root);
      BaseIdempotent(root);
      KeepsShape(ResetNode(root));
      root := ResetNode(root);
      mutant := None;
      finished := false;
    }

    /** `next()` on the request's generator: a finished generator yields
        nothing and changes nothing; otherwise one step of the enumeration,
        and when it yields, the blocks it delegates through and then the
        request are rendered, and the first of them to raise finishes the
        generator. */
    method Next() returns (r: Result<Option<bytes>>)
      requires Valid()
      modifies this
      ensures Valid()
      ensures names == old(names) && blockStack == old(blockStack) && responses == old(responses)
      ensures old(finished) ==> r == Ok(None) && root == old(root) && mutant == old(mutant) && finished
      ensures !old(finished) ==>
        var s := Step(old(root), [], old(mutant));
        && root == s.node && mutant == s.mutant
        && r == (if !s.yielded then Ok(None)
                 else match YieldIn(names, s.node) case Err(e) => Err(e) case Ok(b) => Ok(Some(b)))
        && finished == r.Err?
    {
      if finished {
        return Ok(None);
      }
      var s := Step(root, [], mutant);
      KeepsShape(s.node);
      root := s.node;
      mutant := s.mutant;
      if !s.yielded {
        return Ok(None);
      }
      var out := YieldIn(names, root);
      if out.Err? {
        finished := true;
        return Err(out.error);
      }
      return Ok(Some(out.value));
    }

    /** The request is in the state after k mutations of the enumeration
        of the reset tree `t`. */
    ghost predicate InState(t: Node, k: nat)
      requires k <= Blocks.NumMutations(t)
      reads this
    {
      root == At(t, k) && mutant == MutantAfter(t, k)
    }

    /** `next()` seen against the enumeration of the reset tree `t`: from
        the state after i < n mutations it reaches the state after i + 1 and
        yields its render (or raises what the render raises); after the last
        mutation it yields nothing and leaves the request reset with no
        mutant. */
    method Pull(ghost t: Node, ghost i: nat) returns (y: Result<Option<bytes>>)
      requires Valid() && t.Composite? && t.settings.dep == "" && Base(t) == t && i <= Blocks.NumMutations(t)
      requires InState(t, i) && !finished
      modifies this
      ensures Valid()
      ensures names == old(names) && blockStack == old(blockStack) && responses == old(responses)
      ensures var rs := Renders(names, t);
        var j := if i < |rs| then i + 1 else 0;
        && root == At(t, j) && mutant == MutantAfter(t, j)
        && y == (if i == |rs| then Ok(None) else if rs[i].Err? then Err(rs[i].error) else Ok(Some(rs[i].value)))
        && finished == y.Err?
    {
      EnumerationStep(t, i);
      y := Next();
      if i < Blocks.NumMutations(t) {
        RendersAt(names, t, i);
        assert root == At(t, i + 1);
        assert Renders(names, t)[i] == YieldIn(names, root);
      }
    }

    /** `goto(k)`: beyond `num_mutations` it is refused and nothing changes;
        otherwise the request is reset and stepped k times, stopping in the
        first state whose render raises. */
    method Goto(k: nat) returns (r: Result<()>)
      requires Valid()
      modifies this
      ensures Valid()
      ensures names == old(names) && blockStack == old(blockStack) && responses == old(responses)
      ensures Blocks.NumMutations(Base(old(root))) == Blocks.NumMutations(old(root))
      ensures k > Blocks.NumMutations(old(root)) ==>
        r == Err(OutOfRange(k, Blocks.NumMutations(old(root)))) && root == old(root) && mutant == old(mutant)
        && finished == old(finished)
      ensures k <= Blocks.NumMutations(old(root)) ==>
        var t := Base(old(root));
        var rs := Renders(names, t);
        var f := FirstFailure(rs, 0, k);
        var j := if f.None? then k else f.value;
        && r == (if f.None? then Ok(()) else Err(rs[f.value - 1].error))
        && root == At(t, j) && mutant == MutantAfter(t, j) && finished == r.Err?
    {
      CountIgnoresCursor(root);
      var n := Blocks.NumMutations(root);
      if k > n {
        return Err(OutOfRange(k, n));
      }
      ghost var t := Base(root);
      ghost var rs := Renders(names, t);
      Reset();
      assert At(t, 0) == t && Base(t) == t by {
        BaseIdempotent(old(root));
      }
      var i := 0;
      while i < k
        invariant Valid() && names == old(names) && blockStack == old(blockStack) && responses == old(responses)
        invariant i <= k && root == At(t, i) && mutant == MutantAfter(t, i) && !finished
        invariant FirstFailure(rs, 0, k) == FirstFailure(rs, i, k)
      {
        var y := Pull(t, i);
        i := i + 1;
        if y.Err? {
          return Err(y.error);
        }
      }
      return Ok(());
    }

    /** `mutation_generator(k)` drained: `goto(k)`, then `next()` until the
        generator is exhausted. The outputs are the renders of the states
        after the (k + 1)-th .. last mutations, in order, and the request
        ends reset with no mutant; the first render that raises stops it,
        in the state that raised. */
    method MutationGenerator(k: nat) returns (r: Result<seq<bytes>>)
      requires Valid()
      modifies this
      ensures Valid()
      ensures names == old(names) && blockStack == old(blockStack) && responses == old(responses)
      ensures Blocks.NumMutations(Base(old(root))) == Blocks.NumMutations(old(root))
      ensures k > Blocks.NumMutations(old(root)) ==>
        r == Err(OutOfRange(k, Blocks.NumMutations(old(root)))) && root == old(root) && mutant == old(mutant)
        && finished == old(finished)
      ensures k <= Blocks.NumMutations(old(root)) ==>
        var t := Base(old(root));
        var rs := Renders(names, t);
        var f := FirstFailure(rs, 0, |rs|);
        var j := if f.None? then 0 else f.value;
        && r == (if f.None? then Ok(Outputs(rs, k)) else Err(rs[f.value - 1].error))
        && root == At(t, j) && mutant == MutantAfter(t, j) && finished == r.Err?
    {
      ghost var t := Base(root);
      ghost var n := Blocks.NumMutations(t);
      ghost var rs := Renders(names, t);
      CountIgnoresCursor(root);
      var g := Goto(k);
      if g.Err? {
        if k <= n {
          FirstFailureSplit(rs, 0, k);
        }
        return Err(g.error);
      }
      FirstFailureSplit(rs, 0, k);
      assert Base(t) == t by {
        BaseIdempotent(old(root));
      }
      r := Drain(t, k);
      DrainFromIs(rs, k);
    }

    /** The `next()` calls of a drained generator, from the state after i
        mutations of the enumeration of the reset tree `t` to its end. */
    method Drain(ghost t: Node, i: nat) returns (r: Result<seq<bytes>>)
      requires Valid() && t.Composite? && t.settings.dep == "" && Base(t) == t && i <= Blocks.NumMutations(t)
      requires InState(t, i) && !finished
      modifies this
      ensures Valid()
      ensures names == old(names) && blockStack == old(blockStack) && responses == old(responses)
      ensures var o := DrainFrom(Renders(names, t), i);
        r == o.result && InState(t, o.pos) && finished == r.Err?
      decreases Blocks.NumMutations(t) - i
    {
      var y := Pull(t, i);
      if y.Ok? && y.value.Some? {
        var rest := Drain(t, i + 1);
        ghost var rs := Renders(names, t);
        DrainFromOk(rs, i);
        if rest.Ok? {
          r := Ok([y.value.value] + rest.value);
        } else {
          r := rest;
        }
      } else if y.Err? {
        r := Err(y.error);
      } else {
        r := Ok([]);
      }
    }

    /** `add_response(response)`: appended unless already attached. */
    method AddResponse(response: ResponseId)
      modifies this
      ensures responses == if response in old(responses) then old(responses) else old(responses) + [response]
      ensures root == old(root) && names == old(names) && mutant == old(mutant) && blockStack == old(blockStack)
      ensures finished == old(finished)
    {
      if response !in responses {
        responses := responses + [response];
      }
    }

    /** `parse_response(data)`: None with no parser attached; otherwise the
        first parser, in attachment order, that accepts the data decides, and
        if none does the data matched no response. */
    method ParseResponse<T>(data: bytes, parse: (ResponseId, bytes) -> Option<T>) returns (r: Result<Option<T>>)
      ensures responses == [] ==> r == Ok(None)
      ensures responses != [] && FirstParse(responses, data, parse).Some? ==> r == Ok(FirstParse(responses, data, parse))
      ensures responses != [] && FirstParse(responses, data, parse).None? ==> r == Err(NoMatchingResponse)
    {
      if |responses| == 0 {
        return Ok(None);
      }
      var i := 0;
      while i < |responses|
        invariant 0 <= i <= |responses|
        invariant FirstParse(responses, data, parse) == FirstParse(responses[i..], data, parse)
      {
        var parsed := parse(responses[i], data);
        if parsed.Some? {
          return Ok(parsed);
        }
        assert responses[i..][1..] == responses[i + 1..];
        i := i + 1;
      }
      return Err(NoMatchingResponse);
    }

    /** `get_mutant(name)`: a name registered here first, else a path looked
        up in the registry of every request. */
    function GetMutant(registry: Registry, name: string): (r: Result<Found>)
      reads this
      ensures name in names ==> r == Ok(Element(NodeName(root), names[name]))
      ensures name !in names ==> r == GetMutantByPath(registry, name)
    {
      if name in names then Ok(Element(NodeName(root), names[name]))
      else GetMutantByPath(registry, name)
    }

    /** With this request's registry in the table under its name, the path
        `request.name` resolves to the element `get_mutant(name)` finds. */
    lemma PathAgreesWithName(registry: Registry, name: string)
      requires IsWord(NodeName(root)) && IsWord(name) && name in names
      requires NodeName(root) in registry && registry[NodeName(root)] == names
      ensures GetMutantByPath(registry, PathText(NodeName(root), Some(name))) == GetMutant(registry, name)
    {
      LookupByPath(registry, NodeName(root), Some(name));
    }
  }
}
