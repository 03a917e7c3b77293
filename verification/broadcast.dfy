/**
 * The modal broadcast used when a modal submission carries no command
 * metadata: the tree is walked depth-first in insertion order down to depth
 * three; a node whose `modalSubmit` is truthy is invoked instead of being
 * descended into, and the first truthy reply ends the walk.
 */
module Broadcast {
  import opened Wrappers
  import opened Assoc
  import opened JsValue
  import opened Interactions

  /** The deepest level the walk visits (command, group, subcommand). */
  const DEPTH := 3

  /** `node?.modalSubmit`. */
  function ModalHook(node: Val): Val {
    OptAccess(node, MODAL_HOOK)
  }

  /**
   * Invoking a truthy `modalSubmit` hook: `Some` when the walk stops here,
   * with the reply when it is truthy, or a TypeError when the hook is not a
   * function; `None` when the reply is falsy and the walk goes on.
   */
  function Attempt(hook: Val, ctx: Context, run: Runner): (r: Option<Outcome>)
    ensures r.Some? ==> r.value.Throws? || (r.value.Respond? && r.value.reply.Value?)
    ensures r == Some(Throws) <==> !Callable(hook)
    ensures Callable(hook) && run(hook.call.value, ctx).Value? ==> r == Some(Respond(run(hook.call.value, ctx)))
    ensures r.None? <==> Callable(hook) && !run(hook.call.value, ctx).Value?
  {
    if !Callable(hook) then Some(Throws)
    else
      var reply := run(hook.call.value, ctx);
      if reply.Value? then Some(Respond(reply)) else None
  }

  /**
   * The three nested `for ... in` loops as written, one level per `depth`:
   * `keys` are the keys of `v` still to visit. `None` when the loop runs out.
   */
  function Sweep(v: Val, keys: seq<string>, depth: nat, ctx: Context, run: Runner): (r: Option<Outcome>)
    requires 1 <= depth <= DEPTH
    ensures r.Some? ==> r.value.Throws? || (r.value.Respond? && r.value.reply.Value?)
    decreases DEPTH - depth, |keys|, 1
  {
    if |keys| == 0 then None
    else
      var here := Visit(v, keys[0], depth, ctx, run);
      if here.Some? then here else Sweep(v, keys[1..], depth, ctx, run)
  }

  /**
   * One loop body: the node at `key` is invoked when its `modalSubmit` is
   * truthy, and otherwise, above the deepest level, its own keys are visited.
   */
  function Visit(v: Val, key: string, depth: nat, ctx: Context, run: Runner): (r: Option<Outcome>)
    requires 1 <= depth <= DEPTH
    ensures r.Some? ==> r.value.Throws? || (r.value.Respond? && r.value.reply.Value?)
    decreases DEPTH - depth, 0, 0
  {
    var node := OptAccess(v, key);
    if Truthy(ModalHook(node)) then Attempt(ModalHook(node), ctx, run)
    else if depth < DEPTH then Sweep(node, ForInKeys(node), depth + 1, ctx, run)
    else None
  }

  /** Each path with `key` in front. */
  function Under(key: string, paths: seq<seq<string>>): (r: seq<seq<string>>)
    ensures |r| == |paths|
    ensures forall i :: 0 <= i < |paths| ==> r[i] == [key] + paths[i]
  {
    if |paths| == 0 then [] else [[key] + paths[0]] + Under(key, paths[1..])
  }

  /**
   * Reference order of the broadcast: the paths, relative to `v`, of the
   * nodes whose `modalSubmit` is tried, depth-first in key order.
   */
  function ModalNodes(v: Val, keys: seq<string>, depth: nat): (paths: seq<seq<string>>)
    requires 1 <= depth <= DEPTH
    decreases DEPTH - depth, |keys|, 1
  {
    if |keys| == 0 then []
    else NodesAt(v, keys[0], depth) + ModalNodes(v, keys[1..], depth)
  }

  /** The reference paths contributed by the node at `key`. */
  function NodesAt(v: Val, key: string, depth: nat): (paths: seq<seq<string>>)
    requires 1 <= depth <= DEPTH
    decreases DEPTH - depth, 0, 0
  {
    var node := OptAccess(v, key);
    if Truthy(ModalHook(node)) then [[key]]
    else if depth < DEPTH then Under(key, ModalNodes(node, ForInKeys(node), depth + 1))
    else []
  }

  /** Reference semantics: try the hooks at `paths` in order; the first to stop the walk decides. */
  function FirstResponder(v: Val, paths: seq<seq<string>>, ctx: Context, run: Runner): Option<Outcome>
    decreases |paths|
  {
    if |paths| == 0 then None
    else
      var here := Attempt(ModalHook(Resolve(v, paths[0])), ctx, run);
      if here.Some? then here else FirstResponder(v, paths[1..], ctx, run)
  }

  /** Trying two path lists one after the other. */
  lemma {:induction false} FirstResponderAppend(v: Val, a: seq<seq<string>>, b: seq<seq<string>>, ctx: Context, run: Runner)
    ensures FirstResponder(v, a + b, ctx, run)
         == (if FirstResponder(v, a, ctx, run).Some? then FirstResponder(v, a, ctx, run) else FirstResponder(v, b, ctx, run))
    decreases |a|
  {
    if |a| == 0 {
      assert a + b == b;
    } else {
      assert (a + b)[0] == a[0];
      assert (a + b)[1..] == a[1..] + b;
      FirstResponderAppend(v, a[1..], b, ctx, run);
    }
  }

  /** Trying paths below `key` is trying them from the child at `key`. */
  lemma {:induction false} FirstResponderUnder(v: Val, key: string, paths: seq<seq<string>>, ctx: Context, run: Runner)
    ensures FirstResponder(v, Under(key, paths), ctx, run) == FirstResponder(OptAccess(v, key), paths, ctx, run)
    decreases |paths|
  {
    if |paths| > 0 {
      var u := Under(key, paths);
      assert u[0] == [key] + paths[0];
      assert ([key] + paths[0])[1..] == paths[0];
      assert u[1..] == Under(key, paths[1..]);
      FirstResponderUnder(v, key, paths[1..], ctx, run);
    }
  }

  /**
   * The nested loops as written try exactly the reference nodes, in the
   * reference order, and stop at the first one that answers.
   */
  lemma {:induction false} SweepIsFirstResponder(v: Val, keys: seq<string>, depth: nat, ctx: Context, run: Runner)
    requires 1 <= depth <= DEPTH
    ensures Sweep(v, keys, depth, ctx, run) == FirstResponder(v, ModalNodes(v, keys, depth), ctx, run)
    decreases DEPTH - depth, |keys|, 2
  {
    if |keys| > 0 {
      FirstResponderAppend(v, NodesAt(v, keys[0], depth), ModalNodes(v, keys[1..], depth), ctx, run);
      VisitIsFirstResponder(v, keys[0], depth, ctx, run);
      SweepIsFirstResponder(v, keys[1..], depth, ctx, run);
    }
  }

  /** One loop body agrees with the reference paths of its node. */
  lemma {:induction false} VisitIsFirstResponder(v: Val, key: string, depth: nat, ctx: Context, run: Runner)
    requires 1 <= depth <= DEPTH
    ensures Visit(v, key, depth, ctx, run) == FirstResponder(v, NodesAt(v, key, depth), ctx, run)
    decreases DEPTH - depth, 0, 1
  {
    if Truthy(ModalHook(OptAccess(v, key))) {
      FirstResponderSingle(v, key, ctx, run);
    } else if depth < DEPTH {
      DescendIsFirstResponder(v, key, depth, ctx, run);
    }
  }

  /** A node without a truthy `modalSubmit`, above the deepest level: its subtree agrees with the reference. */
  lemma {:induction false} DescendIsFirstResponder(v: Val, key: string, depth: nat, ctx: Context, run: Runner)
    requires 1 <= depth < DEPTH && !Truthy(ModalHook(OptAccess(v, key)))
    ensures Visit(v, key, depth, ctx, run) == FirstResponder(v, NodesAt(v, key, depth), ctx, run)
    decreases DEPTH - depth, 0, 0
  {
    var node := OptAccess(v, key);
    var below := ModalNodes(node, ForInKeys(node), depth + 1);
    VisitDescends(v, key, depth, ctx, run);
    NodesAtDescends(v, key, depth);
    SweepIsFirstResponder(node, ForInKeys(node), depth + 1, ctx, run);
    FirstResponderUnder(v, key, below, ctx, run);
  }

  /** Trying the single path `[key]` is attempting the hook of the child at `key`. */
  lemma FirstResponderSingle(v: Val, key: string, ctx: Context, run: Runner)
    ensures FirstResponder(v, [[key]], ctx, run) == Attempt(ModalHook(OptAccess(v, key)), ctx, run)
  {
    assert Resolve(v, [key]) == OptAccess(v, key) by {
      assert [key][1..] == [];
    }
    assert [[key]][1..] == [];
  }

  /** Above the deepest level, a node without a truthy `modalSubmit` is descended into. */
  lemma VisitDescends(v: Val, key: string, depth: nat, ctx: Context, run: Runner)
    requires 1 <= depth < DEPTH && !Truthy(ModalHook(OptAccess(v, key)))
    ensures Visit(v, key, depth, ctx, run) == Sweep(OptAccess(v, key), ForInKeys(OptAccess(v, key)), depth + 1, ctx, run)
  {
  }

  /** The reference paths below such a node are its child's paths with `key` in front. */
  lemma NodesAtDescends(v: Val, key: string, depth: nat)
    requires 1 <= depth < DEPTH && !Truthy(ModalHook(OptAccess(v, key)))
    ensures NodesAt(v, key, depth) == Under(key, ModalNodes(OptAccess(v, key), ForInKeys(OptAccess(v, key)), depth + 1))
  {
  }

  /**
   * Along `p` the first node with a truthy `modalSubmit` is the one at its
   * end: the broadcast descends through every node before it and invokes it.
   */
  predicate FirstHookAt(v: Val, p: seq<string>)
    decreases |p|
  {
    && |p| >= 1
    && (var node := OptAccess(v, p[0]);
        if |p| == 1 then Truthy(ModalHook(node))
        else !Truthy(ModalHook(node)) && FirstHookAt(node, p[1..]))
  }

  /** Every key of `p` after the first is one that `for ... in` visits at the node the keys before it reach. */
  predicate OnKeys(v: Val, p: seq<string>)
    decreases |p|
  {
    |p| <= 1 || (p[1] in ForInKeys(OptAccess(v, p[0])) && OnKeys(OptAccess(v, p[0]), p[1..]))
  }

  /**
   * A path the broadcast should reach from `keys` at `depth`: one to
   * `DEPTH - depth + 1` keys long, starting with one of `keys`, through keys
   * `for ... in` visits, to the first truthy `modalSubmit` along it.
   */
  predicate FirstHookPath(v: Val, keys: seq<string>, depth: nat, p: seq<string>) {
    && 1 <= |p| <= DEPTH - depth + 1 && p[0] in keys
    && FirstHookAt(v, p) && OnKeys(v, p)
  }

  /**
   * In terms of the nodes the path resolves to: the node at `p` has a truthy
   * `modalSubmit` and no node on a proper non-empty prefix of `p` has one.
   */
  lemma {:induction false} FirstHookAtResolve(v: Val, p: seq<string>)
    requires FirstHookAt(v, p)
    ensures Truthy(ModalHook(Resolve(v, p)))
    ensures forall j :: 1 <= j < |p| ==> !Truthy(ModalHook(Resolve(v, p[..j])))
    decreases |p|
  {
    var node := OptAccess(v, p[0]);
    assert p == [p[0]] + p[1..];
    ResolveCons(v, p[0], p[1..]);
    if |p| > 1 {
      FirstHookAtResolve(node, p[1..]);
      forall j | 1 <= j < |p|
        ensures !Truthy(ModalHook(Resolve(v, p[..j])))
      {
        assert p[..j] == [p[0]] + p[1..][..j - 1];
        ResolveCons(v, p[0], p[1..][..j - 1]);
      }
    }
  }

  /**
   * Shape of the visited nodes: each path is one to `DEPTH - depth + 1` keys
   * long, starts with one of `keys`, goes through keys `for ... in` visits and
   * ends at the first node along it with a truthy `modalSubmit` (such a node
   * is invoked and not descended into).
   */
  lemma {:induction false} ModalNodesShape(v: Val, keys: seq<string>, depth: nat, p: seq<string>)
    requires 1 <= depth <= DEPTH
    requires p in ModalNodes(v, keys, depth)
    ensures FirstHookPath(v, keys, depth, p)
    decreases DEPTH - depth, |keys|, 2
  {
    if p in NodesAt(v, keys[0], depth) {
      NodesAtShape(v, keys[0], depth, p);
    } else {
      ModalNodesShape(v, keys[1..], depth, p);
    }
  }

  /** Shape of the paths one node contributes. */
  lemma {:induction false} NodesAtShape(v: Val, key: string, depth: nat, p: seq<string>)
    requires 1 <= depth <= DEPTH
    requires p in NodesAt(v, key, depth)
    ensures FirstHookPath(v, [key], depth, p)
    decreases DEPTH - depth, 0, 1
  {
    if Truthy(ModalHook(OptAccess(v, key))) {
      assert p == [key];
    } else {
      var q := DescendMember(v, key, depth, p);
      BelowShape(OptAccess(v, key), depth, q);
      DescendShape(v, key, q);
    }
  }

  /** A path a node without a truthy `modalSubmit` contributes is one of its child's paths with `key` in front. */
  lemma DescendMember(v: Val, key: string, depth: nat, p: seq<string>) returns (q: seq<string>)
    requires 1 <= depth <= DEPTH && !Truthy(ModalHook(OptAccess(v, key)))
    requires p in NodesAt(v, key, depth)
    ensures depth < DEPTH && p == [key] + q
    ensures q in ModalNodes(OptAccess(v, key), ForInKeys(OptAccess(v, key)), depth + 1)
  {
    NodesAtDescends(v, key, depth);
    q := UnderMember(key, ModalNodes(OptAccess(v, key), ForInKeys(OptAccess(v, key)), depth + 1), p);
  }

  /** The child's paths, one level further down, have the shape of visited nodes. */
  lemma {:induction false} BelowShape(node: Val, depth: nat, q: seq<string>)
    requires 1 <= depth < DEPTH && q in ModalNodes(node, ForInKeys(node), depth + 1)
    ensures FirstHookPath(node, ForInKeys(node), depth + 1, q)
    decreases DEPTH - depth, 0, 0
  {
    ModalNodesShape(node, ForInKeys(node), depth + 1, q);
  }

  /** A path below `key` is some child path with `key` in front. */
  lemma UnderMember(key: string, paths: seq<seq<string>>, p: seq<string>) returns (q: seq<string>)
    requires p in Under(key, paths)
    ensures q in paths && p == [key] + q
  {
    var r := Under(key, paths);
    var i :| 0 <= i < |r| && r[i] == p;
    q := paths[i];
  }

  /**
   * A path below a node without a truthy `modalSubmit` keeps the shape of
   * the child's path, one key longer.
   */
  lemma DescendShape(v: Val, key: string, q: seq<string>)
    requires !Truthy(ModalHook(OptAccess(v, key)))
    requires FirstHookAt(OptAccess(v, key), q) && OnKeys(OptAccess(v, key), q)
    requires q[0] in ForInKeys(OptAccess(v, key))
    ensures FirstHookAt(v, [key] + q) && OnKeys(v, [key] + q)
  {
    assert ([key] + q)[1..] == q;
  }

  /** Conversely, every path of that shape is among the visited nodes. */
  lemma {:induction false} ModalNodesComplete(v: Val, keys: seq<string>, depth: nat, p: seq<string>)
    requires 1 <= depth <= DEPTH && FirstHookPath(v, keys, depth, p)
    ensures p in ModalNodes(v, keys, depth)
    decreases DEPTH - depth, |keys|, 2
  {
    if p[0] == keys[0] {
      NodesAtComplete(v, keys[0], depth, p);
    } else {
      ModalNodesComplete(v, keys[1..], depth, p);
    }
  }

  /** Completeness for the paths one node contributes. */
  lemma {:induction false} NodesAtComplete(v: Val, key: string, depth: nat, p: seq<string>)
    requires 1 <= depth <= DEPTH && FirstHookPath(v, [key], depth, p)
    ensures p in NodesAt(v, key, depth)
    decreases DEPTH - depth, 0, 1
  {
    if |p| == 1 {
      SingleComplete(v, key, depth, p);
    } else {
      ChildPath(v, key, depth, p);
      DescendComplete(v, key, depth, p);
    }
  }

  /** Completeness below a node without a truthy `modalSubmit`. */
  lemma {:induction false} DescendComplete(v: Val, key: string, depth: nat, p: seq<string>)
    requires 1 <= depth < DEPTH && !Truthy(ModalHook(OptAccess(v, key)))
    requires |p| >= 2 && p[0] == key
    requires FirstHookPath(OptAccess(v, key), ForInKeys(OptAccess(v, key)), depth + 1, p[1..])
    ensures p in NodesAt(v, key, depth)
    decreases DEPTH - depth, 0, 0
  {
    var child := OptAccess(v, key);
    ModalNodesComplete(child, ForInKeys(child), depth + 1, p[1..]);
    DescendContains(v, key, depth, p);
  }

  /** A one-key path to a truthy `modalSubmit` is the node's own contribution. */
  lemma SingleComplete(v: Val, key: string, depth: nat, p: seq<string>)
    requires 1 <= depth <= DEPTH && FirstHookPath(v, [key], depth, p) && |p| == 1
    ensures p in NodesAt(v, key, depth)
  {
    assert p == [key];
  }

  /** The rest of a path of two or more keys is a path of the same shape from the child, one level down. */
  lemma ChildPath(v: Val, key: string, depth: nat, p: seq<string>)
    requires FirstHookPath(v, [key], depth, p) && |p| >= 2
    ensures depth < DEPTH && !Truthy(ModalHook(OptAccess(v, key)))
    ensures FirstHookPath(OptAccess(v, key), ForInKeys(OptAccess(v, key)), depth + 1, p[1..])
  {
  }

  /** A child path with `key` in front is among the paths a node without a truthy `modalSubmit` contributes. */
  lemma DescendContains(v: Val, key: string, depth: nat, p: seq<string>)
    requires 1 <= depth < DEPTH && !Truthy(ModalHook(OptAccess(v, key)))
    requires |p| >= 1 && p[0] == key
    requires p[1..] in ModalNodes(OptAccess(v, key), ForInKeys(OptAccess(v, key)), depth + 1)
    ensures p in NodesAt(v, key, depth)
  {
    NodesAtDescends(v, key, depth);
    UnderContains(key, ModalNodes(OptAccess(v, key), ForInKeys(OptAccess(v, key)), depth + 1), p[1..]);
    assert p == [key] + p[1..];
  }

  /** A path in the list has `key` in front in the list below `key`. */
  lemma UnderContains(key: string, paths: seq<seq<string>>, q: seq<string>)
    requires q in paths
    ensures [key] + q in Under(key, paths)
  {
    var i :| 0 <= i < |paths| && paths[i] == q;
    assert Under(key, paths)[i] == [key] + q;
  }

  /**
   * The broadcast's reference nodes are exactly the first-hook nodes one to
   * three keys below the root, reached through keys `for ... in` visits.
   */
  lemma ModalNodesExactly(v: Val, p: seq<string>)
    ensures p in ModalNodes(v, ForInKeys(v), 1) <==> FirstHookPath(v, ForInKeys(v), 1, p)
  {
    if p in ModalNodes(v, ForInKeys(v), 1) {
      ModalNodesShape(v, ForInKeys(v), 1, p);
    }
    if FirstHookPath(v, ForInKeys(v), 1, p) {
      ModalNodesComplete(v, ForInKeys(v), 1, p);
    }
  }
}
