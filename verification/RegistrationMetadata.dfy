/** The nesting check on agent registration metadata: a stack worklist with a depth limit. */
module RegistrationMetadata {
  import opened Wrappers

  datatype Json =
    | Null
    | Scalar(text: string)
    | Array(items: seq<Json>)
    | Object(keys: seq<string>, values: seq<Json>)

  datatype LoaderFailure = MalformedJson | NotObject | TooDeep

  const MAX_JSON_DEPTH: nat := 20

  predicate IsContainer(v: Json) { v.Array? || v.Object? }

  // Object.values
  function Children(v: Json): seq<Json>
    requires IsContainer(v)
  {
    if v.Array? then v.items else v.values
  }

  // How deep objects and arrays nest; a scalar or null has depth 0.
  function Depth(v: Json): nat
    decreases v, 1
  {
    match v
    case Array(items) => 1 + MaxDepth(items)
    case Object(_, values) => 1 + MaxDepth(values)
    case _ => 0
  }

  function MaxDepth(values: seq<Json>): nat
    decreases values, 0
  {
    if values == [] then 0
    else
      var first, rest := Depth(values[0]), MaxDepth(values[1..]);
      if first < rest then rest else first
  }

  // How many values there are, for the termination of the worklist.
  function Size(v: Json): nat
    decreases v, 1
  {
    match v
    case Array(items) => 1 + Sizes(items)
    case Object(_, values) => 1 + Sizes(values)
    case _ => 1
  }

  function Sizes(values: seq<Json>): nat
    decreases values, 0
  {
    if values == [] then 0 else Size(values[0]) + Sizes(values[1..])
  }

  datatype Pending = Pending(value: Json, depth: nat)

  predicate Fits(p: Pending) { p.depth + Depth(p.value) <= MAX_JSON_DEPTH + 1 }

  predicate AllFit(pending: seq<Pending>) { forall i :: 0 <= i < |pending| ==> Fits(pending[i]) }

  predicate AllContainers(pending: seq<Pending>) { forall i :: 0 <= i < |pending| ==> IsContainer(pending[i].value) }

  function Work(pending: seq<Pending>): nat {
    if pending == [] then 0 else Work(pending[..|pending| - 1]) + Size(pending[|pending| - 1].value)
  }

  lemma {:induction false} MaxDepthBound(values: seq<Json>, n: nat)
    ensures MaxDepth(values) <= n <==> forall i :: 0 <= i < |values| ==> Depth(values[i]) <= n
  {
    if values != [] {
      MaxDepthBound(values[1..], n);
      if forall i :: 0 <= i < |values| ==> Depth(values[i]) <= n {
        assert forall i :: 0 <= i < |values| - 1 ==> values[1..][i] == values[i + 1];
      } else {
        var i :| 0 <= i < |values| && n < Depth(values[i]);
        assert i == 0 || values[1..][i - 1] == values[i];
      }
    }
  }

  lemma {:induction false} SizesUpTo(values: seq<Json>, k: nat)
    requires k < |values|
    ensures Sizes(values[..k + 1]) == Sizes(values[..k]) + Size(values[k])
  {
    if k != 0 {
      SizesUpTo(values[1..], k - 1);
      assert values[..k + 1][1..] == values[1..][..k] && values[..k][1..] == values[1..][..k - 1];
    }
  }

  lemma WorkOfPush(pending: seq<Pending>, p: Pending)
    ensures Work(pending + [p]) == Work(pending) + Size(p.value)
  {
    assert (pending + [p])[..|pending|] == pending;
  }

  // The worklist: it answers the metadata when no popped value is deeper than the limit.
  method ParseMetadata(parsed: Option<Json>) returns (metadata: Result<Json, LoaderFailure>)
    ensures metadata ==
            if parsed.None? then Err(MalformedJson)
            else if !parsed.value.Object? then Err(NotObject)
            else if 20 < Depth(parsed.value) then Err(TooDeep)
            else Ok(parsed.value)
  {
    if parsed.None? { return Err(MalformedJson); }
    var root := parsed.value;
    if !root.Object? { return Err(NotObject); }
    var pending := [Pending(root, 1)];
    while pending != []
      invariant AllContainers(pending)
      invariant Depth(root) <= MAX_JSON_DEPTH <==> AllFit(pending)
      decreases Work(pending)
    {
      var last := |pending| - 1;
      var current := pending[last];
      ghost var whole := pending;
      ContainerIsDeep(current);
      if MAX_JSON_DEPTH < current.depth {
        assert !Fits(pending[last]);
        return Err(TooDeep);
      }
      pending := PushChildren(pending[..last], current);
      ChildrenFitIff(current);
      FitsAfterPush(whole, pending);
    }
    metadata := Ok(root);
  }

  ghost predicate ChildrenFit(current: Pending, k: nat)
    requires IsContainer(current.value) && k <= |Children(current.value)|
  {
    forall i :: 0 <= i < k ==> Fits(Child(current, i))
  }

  function Child(current: Pending, k: nat): Pending
    requires IsContainer(current.value) && k < |Children(current.value)|
  {
    Pending(Children(current.value)[k], current.depth + 1)
  }

  // The first k children have been looked at, and the containers among them pushed on rest.
  ghost predicate Pushed(rest: seq<Pending>, current: Pending, k: nat, pending: seq<Pending>)
    requires IsContainer(current.value) && k <= |Children(current.value)|
  {
    && AllContainers(pending)
    && (AllFit(pending) <==> AllFit(rest) && ChildrenFit(current, k))
    && Work(pending) <= Work(rest) + Sizes(Children(current.value)[..k])
  }

  method PushChildren(rest: seq<Pending>, current: Pending) returns (pending: seq<Pending>)
    requires IsContainer(current.value) && current.depth <= MAX_JSON_DEPTH && AllContainers(rest)
    ensures AllContainers(pending)
    ensures AllFit(pending) <==> AllFit(rest) && ChildrenFit(current, |Children(current.value)|)
    ensures Work(pending) < Work(rest) + Size(current.value)
  {
    hide Pushed, AllFit, AllContainers, ChildrenFit, Work, Size, Sizes;
    var children := Children(current.value);
    pending := rest;
    var k := 0;
    PushedNone(rest, current);
    while k < |children|
      invariant 0 <= k <= |children|
      invariant Pushed(rest, current, k, pending)
    {
      PushedNext(rest, current, k, pending);
      if IsContainer(children[k]) {
        pending := pending + [Child(current, k)];
      }
      k := k + 1;
    }
    PushedAll(rest, current, pending);
  }

  lemma PushedNone(rest: seq<Pending>, current: Pending)
    requires IsContainer(current.value) && AllContainers(rest)
    ensures Pushed(rest, current, 0, rest)
  {
    hide AllFit, AllContainers, Work, Fits;
  }

  lemma PushedNext(rest: seq<Pending>, current: Pending, k: nat, pending: seq<Pending>)
    requires IsContainer(current.value) && current.depth <= MAX_JSON_DEPTH && k < |Children(current.value)|
    requires Pushed(rest, current, k, pending)
    ensures var child := Child(current, k);
            Pushed(rest, current, k + 1, if IsContainer(child.value) then pending + [child] else pending)
  {
    hide AllFit, Fits, Work, Size, Sizes, ChildrenFit, AllContainers;
    var child := Child(current, k);
    SizesUpTo(Children(current.value), k);
    WorkOfPush(pending, child);
    AllFitPush(pending, child);
    AllContainersPush(pending, child);
    ChildrenFitNext(current, k);
    if !IsContainer(child.value) {
      LeafFits(child);
    }
  }

  lemma PushedAll(rest: seq<Pending>, current: Pending, pending: seq<Pending>)
    requires IsContainer(current.value) && Pushed(rest, current, |Children(current.value)|, pending)
    ensures AllContainers(pending)
    ensures AllFit(pending) <==> AllFit(rest) && ChildrenFit(current, |Children(current.value)|)
    ensures Work(pending) < Work(rest) + Size(current.value)
  {
    hide AllFit, AllContainers, ChildrenFit, Work, Sizes;
    var children := Children(current.value);
    assert children[..|children|] == children;
  }

  lemma ChildrenFitNext(current: Pending, k: nat)
    requires IsContainer(current.value) && k < |Children(current.value)|
    ensures ChildrenFit(current, k + 1) <==> ChildrenFit(current, k) && Fits(Child(current, k))
  {
    hide Fits, Child;
  }

  lemma LeafFits(p: Pending)
    requires !IsContainer(p.value) && p.depth <= MAX_JSON_DEPTH + 1
    ensures Fits(p)
  {
  }

  lemma AllContainersPush(pending: seq<Pending>, p: Pending)
    requires AllContainers(pending)
    ensures IsContainer(p.value) ==> AllContainers(pending + [p])
  {
    hide IsContainer;
  }

  lemma AllFitPush(pending: seq<Pending>, p: Pending)
    ensures AllFit(pending + [p]) <==> AllFit(pending) && Fits(p)
  {
    hide Fits;
    assert (pending + [p])[|pending|] == p;
    assert forall i :: 0 <= i < |pending| ==> (pending + [p])[i] == pending[i];
  }

  lemma ContainerIsDeep(p: Pending)
    requires IsContainer(p.value)
    ensures MAX_JSON_DEPTH < p.depth ==> !Fits(p)
  {
  }

  lemma ChildrenFitIff(current: Pending)
    requires IsContainer(current.value) && current.depth <= MAX_JSON_DEPTH
    ensures Fits(current) <==> ChildrenFit(current, |Children(current.value)|)
  {
    var children := Children(current.value);
    MaxDepthBound(children, MAX_JSON_DEPTH - current.depth);
    assert forall i :: 0 <= i < |children| ==> Child(current, i).value == children[i];
    assert Depth(current.value) == 1 + MaxDepth(children);
    hide MaxDepth, Depth;
  }

  lemma FitsAfterPush(whole: seq<Pending>, pending: seq<Pending>)
    requires whole != []
    requires AllFit(pending) <==> AllFit(whole[..|whole| - 1]) && Fits(whole[|whole| - 1])
    ensures AllFit(pending) <==> AllFit(whole)
  {
    AllFitPush(whole[..|whole| - 1], whole[|whole| - 1]);
    assert whole[..|whole| - 1] + [whole[|whole| - 1]] == whole;
  }

  // ----- What the depth means -----

  // Following the child indices of `path` goes through objects and arrays only.
  ghost predicate Nests(v: Json, path: seq<nat>)
    decreases path
  {
    IsContainer(v) && (path != [] ==> path[0] < |Children(v)| && Nests(Children(v)[path[0]], path[1..]))
  }

  /** The depth is the longest chain of nested objects and arrays, wherever in the document it is. */
  lemma {:induction false} DepthIsTheLongestChain(v: Json, n: nat)
    ensures n < Depth(v) <==> exists path :: |path| == n && Nests(v, path)
    decreases n
  {
    if IsContainer(v) {
      if n == 0 {
        assert Nests(v, []);
      } else {
        var children := Children(v);
        MaxDepthBound(children, n - 1);
        forall i | 0 <= i < |children|
          ensures n - 1 < Depth(children[i]) <==> exists path :: |path| == n - 1 && Nests(children[i], path)
        {
          DepthIsTheLongestChain(children[i], n - 1);
        }
        if n < Depth(v) {
          var i :| 0 <= i < |children| && n - 1 < Depth(children[i]);
          var path :| |path| == n - 1 && Nests(children[i], path);
          assert Nests(v, [i] + path);
        }
        if path: seq<nat> :| |path| == n && Nests(v, path) {
          assert |path[1..]| == n - 1 && Nests(children[path[0]], path[1..]);
        }
      }
    }
  }
}
