/**
 * The JavaScript values the compiled handler tree is made of. An object may be
 * callable (a function); its own enumerable properties are ordered entries.
 * Lifecycle hooks ("command", "messageComponent", "modalSubmit") are ordinary
 * properties, so they share one namespace with the child keys, as in JavaScript.
 */
module JsValue {
  import opened Wrappers
  import opened Assoc

  /** Identity of a handler function supplied by the application. */
  type HandlerId = nat

  /** An opaque response body produced by a handler. */
  type Payload = nat

  /** `undefined`/`null`, or an object that is a function when `call` is present. */
  datatype Val = Undefined | Obj(call: Option<HandlerId>, props: Entries<Val>)

  /** What a handler returns: `undefined`/`null`, another falsy value, or a response object. */
  datatype Reply = Nullish | Falsy | Value(body: Payload)

  /** `{}`. */
  const EmptyObject: Val := Obj(None, [])

  /** A function with no own properties. */
  function Fn(h: HandlerId): (v: Val)
    ensures Callable(v)
  {
    Obj(Some(h), [])
  }

  /** JavaScript truthiness of a tree value: every object is truthy. */
  predicate Truthy(v: Val) {
    v.Obj?
  }

  /** The value can be called: it is a function. */
  predicate Callable(v: Val) {
    v.Obj? && v.call.Some?
  }

  /** `v[key]` read from a defined value; `undefined` when absent. */
  function Get(v: Val, key: string): (r: Val)
    requires v.Obj?
    ensures r.Obj? ==> key in Keys(v.props)
  {
    Find(v.props, key).GetOr(Undefined)
  }

  /** `v[key]`: `None` where JavaScript throws a TypeError (reading from `undefined`). */
  function Access(v: Val, key: string): (r: Option<Val>)
    ensures r.None? <==> v.Undefined?
  {
    if v.Undefined? then None else Some(Get(v, key))
  }

  /** `v?.[key]`: optional chaining, `undefined` when `v` is. */
  function OptAccess(v: Val, key: string): (r: Val)
    ensures v.Undefined? ==> r.Undefined?
    ensures Access(v, key).Some? ==> r == Access(v, key).value
  {
    if v.Undefined? then Undefined else Get(v, key)
  }

  /** The keys `for (const k in v)` visits; none for `undefined`. */
  function ForInKeys(v: Val): seq<string> {
    if v.Undefined? then [] else Keys(v.props)
  }

  /** `v ??= {}`. */
  function OrEmpty(v: Val): (r: Val)
    ensures r.Obj?
    ensures v.Obj? ==> r == v
  {
    if v.Undefined? then EmptyObject else v
  }

  /**
   * `keys.reduce((acc, key) => acc[key], v)`: successive property reads;
   * `None` where a read hits `undefined` and throws.
   */
  function Walk(v: Val, keys: seq<string>): (r: Option<Val>)
    ensures |keys| == 0 ==> r == Some(v)
    ensures r.Some? && |keys| > 0 ==> v.Obj?
    decreases |keys|
  {
    if |keys| == 0 then Some(v)
    else match Access(v, keys[0])
      case None => None
      case Some(child) => Walk(child, keys[1..])
  }

  /** `v?.[k1]?.[k2]...`: the node at a path, `undefined` once the path leaves the tree. */
  function Resolve(v: Val, path: seq<string>): Val
    decreases |path|
  {
    if |path| == 0 then v else Resolve(OptAccess(v, path[0]), path[1..])
  }

  /** Resolving a path with `key` in front is resolving the rest from the child at `key`. */
  lemma ResolveCons(v: Val, key: string, path: seq<string>)
    ensures Resolve(v, [key] + path) == Resolve(OptAccess(v, key), path)
  {
    assert ([key] + path)[1..] == path;
  }

  /** One step of the reduce from a defined value. */
  lemma WalkCons(v: Val, key: string, path: seq<string>)
    requires v.Obj?
    ensures Walk(v, [key] + path) == Walk(Get(v, key), path)
  {
    assert ([key] + path)[1..] == path;
  }

  /** The reduce along two keys through an object. */
  lemma WalkTwo(v: Val, k1: string, k2: string)
    requires v.Obj? && Get(v, k1).Obj?
    ensures Walk(v, [k1, k2]) == Some(Get(Get(v, k1), k2))
  {
    WalkCons(v, k1, [k2]);
    WalkCons(Get(v, k1), k2, []);
  }

  /** The reduce along three keys through objects. */
  lemma WalkThree(v: Val, k1: string, k2: string, k3: string)
    requires v.Obj? && Get(v, k1).Obj? && Get(Get(v, k1), k2).Obj?
    ensures Walk(v, [k1, k2, k3]) == Some(Get(Get(Get(v, k1), k2), k3))
  {
    WalkCons(v, k1, [k2, k3]);
    WalkTwo(Get(v, k1), k2, k3);
  }

  /**
   * The reduce throws exactly when some proper prefix of the path already
   * resolves to `undefined`; otherwise it lands on the node at the path.
   */
  lemma {:induction false} WalkThrowsIff(v: Val, keys: seq<string>)
    ensures Walk(v, keys).None? <==> exists j :: 0 <= j < |keys| && Resolve(v, keys[..j]).Undefined?
    ensures Walk(v, keys).Some? ==> Walk(v, keys).value == Resolve(v, keys)
    decreases |keys|
  {
    if |keys| > 0 {
      assert keys[..0] == [];
      if v.Obj? {
        var child := Get(v, keys[0]);
        WalkThrowsIff(child, keys[1..]);
        forall j | 1 <= j <= |keys|
          ensures Resolve(v, keys[..j]) == Resolve(child, keys[1..][..j - 1])
        {
          assert keys[..j][0] == keys[0];
          assert keys[..j][1..] == keys[1..][..j - 1];
        }
        if Walk(v, keys).None? {
          var j :| 0 <= j < |keys[1..]| && Resolve(child, keys[1..][..j]).Undefined?;
          assert Resolve(v, keys[..j + 1]).Undefined?;
        }
      }
    }
  }
}
