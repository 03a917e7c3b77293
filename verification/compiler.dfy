/**
 * `commandsInit`: walks each handler bundle in step with its command's
 * descriptor index and merges every entry into one tree. At command, group and
 * subcommand depth a factory function is replaced by the value it returns for
 * the matching index slice; nested objects are merged (`??= {}`), function
 * slots are overwritten, and anything else is skipped.
 */
module Compiler {
  import opened Wrappers
  import opened Assoc
  import opened JsValue
  import opened Descriptor

  /** Identity of a handler factory supplied by the application. */
  type FactoryId = nat

  /** A handler-bundle value: a factory function, a nested object, or anything else (skipped). */
  datatype Entry = Factory(id: FactoryId) | Nested(entries: Entries<Entry>) | Inert

  /** One registration: a command descriptor with its handler bundle, keyed by command name. */
  datatype Command = Command(descriptor: CommandDesc, handler: Entries<Entry>)

  /** Calling a factory on its descriptor slice; the result is what the tree stores. */
  type Factories = (FactoryId, Act) -> Val

  /** The keys of a subcommand-level bundle that the loop assigns: its functions. */
  function FactoryKeys(bundle: Entries<Entry>): set<string> {
    set i | 0 <= i < |bundle| && bundle[i].1.Factory? :: bundle[i].0
  }

  /** The keys of a command- or group-level bundle that the loop assigns: functions and objects. */
  function TouchedKeys(bundle: Entries<Entry>): set<string> {
    set i | 0 <= i < |bundle| && !bundle[i].1.Inert? :: bundle[i].0
  }

  /** `act` is the slice `cAct[key][key2]`, or `None` when evaluating it throws. */
  predicate Resolvable2(act: Option<Act>, bundle: Entries<Entry>) {
    FactoryKeys(bundle) == {} || (act.Some? && !act.value.Missing?)
  }

  /** Every slice a group-level bundle reads below the slice `act` exists. */
  predicate Resolvable1(act: Act, bundle: Entries<Entry>) {
    forall i :: 0 <= i < |bundle| ==>
      (bundle[i].1.Factory? ==> !act.Missing?) &&
      (bundle[i].1.Nested? ==> Resolvable2(ActAccess(act, bundle[i].0), bundle[i].1.entries))
  }

  /** Every slice a handler bundle reads from the index `cAct` exists. */
  predicate Resolvable0(index: Entries<Act>, bundle: Entries<Entry>) {
    forall i :: 0 <= i < |bundle| && bundle[i].1.Nested? ==>
      Resolvable1(Find(index, bundle[i].0).GetOr(Missing), bundle[i].1.entries)
  }

  /** The node an object-valued bundle entry merges into: `out[key] ??= {}`. */
  function MergeTarget(slot: Entries<Val>, key: string): (node: Val)
    ensures node.Obj?
  {
    OrEmpty(Find(slot, key).GetOr(Undefined))
  }

  /**
   * One iteration at subcommand level, `key3` bound to `e`: a function is
   * replaced by its value on `cAct[key][key2][key3]`; anything else is skipped.
   * `None` when reading the slice throws.
   */
  function Step2(slot: Entries<Val>, act: Option<Act>, key: string, e: Entry, call: Factories): (r: Option<Entries<Val>>)
    ensures r.None? <==> e.Factory? && (act.None? || act.value.Missing?)
    ensures r.Some? ==> Keys(slot) <= Keys(r.value)
    ensures r.Some? ==> forall k :: k != key || !e.Factory? ==> Find(r.value, k) == Find(slot, k)
    ensures r.Some? && e.Factory? ==> act.Some? && ActAccess(act.value, key).Some?
    ensures r.Some? && e.Factory? ==> Find(r.value, key) == Some(call(e.id, ActAccess(act.value, key).value))
  {
    if e.Factory? then
      if act.None? || act.value.Missing? then None
      else Some(Put(slot, key, call(e.id, ActAccess(act.value, key).value)))
    else Some(slot)
  }

  /** Subcommand level: `for (key3 in l1)`, assigning only functions. */
  function InitLevel2(slot: Entries<Val>, act: Option<Act>, bundle: Entries<Entry>, call: Factories): (r: Option<Entries<Val>>)
    ensures r.None? <==> !Resolvable2(act, bundle)
    ensures r.Some? ==> Keys(slot) <= Keys(r.value)
    ensures r.Some? ==> forall k :: k !in FactoryKeys(bundle) ==> Find(r.value, k) == Find(slot, k)
    decreases |bundle|
  {
    if |bundle| == 0 then Some(slot)
    else
      assert FactoryKeys(bundle) == (if bundle[0].1.Factory? then {bundle[0].0} else {}) + FactoryKeys(bundle[1..]);
      match Step2(slot, act, bundle[0].0, bundle[0].1, call)
      case None => None
      case Some(next) => InitLevel2(next, act, bundle[1..], call)
  }

  /**
   * One iteration at group level, `key2` bound to `e`: a function is replaced
   * by its value on `cAct[key][key2]`; an object merges into
   * `out[key][key2] ??= {}`; anything else is skipped.
   */
  function Step1(slot: Entries<Val>, act: Act, key: string, e: Entry, call: Factories): (r: Option<Entries<Val>>)
    ensures r.None? <==> (e.Factory? && act.Missing?) || (e.Nested? && !Resolvable2(ActAccess(act, key), e.entries))
    ensures r.Some? ==> Keys(slot) <= Keys(r.value)
    ensures r.Some? ==> forall k :: k != key || e.Inert? ==> Find(r.value, k) == Find(slot, k)
    ensures r.Some? && e.Factory? ==> ActAccess(act, key).Some?
    ensures r.Some? && e.Factory? ==> Find(r.value, key) == Some(call(e.id, ActAccess(act, key).value))
    ensures r.Some? && e.Nested? ==>
      var before := MergeTarget(slot, key);
      var after := Find(r.value, key);
      && after.Some? && after.value.Obj?
      && after.value.call == before.call
      && Keys(before.props) <= Keys(after.value.props)
      && forall k :: k !in FactoryKeys(e.entries) ==> Find(after.value.props, k) == Find(before.props, k)
  {
    match e
    case Factory(f) =>
      if act.Missing? then None
      else Some(Put(slot, key, call(f, ActAccess(act, key).value)))
    case Nested(inner) =>
      var node := MergeTarget(slot, key);
      (match InitLevel2(node.props, ActAccess(act, key), inner, call)
       case None => None
       case Some(props) => Some(Put(slot, key, Obj(node.call, props))))
    case Inert => Some(slot)
  }

  /** Group level: `for (key2 in l0)`. */
  function InitLevel1(slot: Entries<Val>, act: Act, bundle: Entries<Entry>, call: Factories): (r: Option<Entries<Val>>)
    ensures r.None? <==> !Resolvable1(act, bundle)
    ensures r.Some? ==> Keys(slot) <= Keys(r.value)
    ensures r.Some? ==> forall k :: k !in TouchedKeys(bundle) ==> Find(r.value, k) == Find(slot, k)
    decreases |bundle|
  {
    if |bundle| == 0 then Some(slot)
    else
      var key := bundle[0].0;
      var e := bundle[0].1;
      assert TouchedKeys(bundle) == (if !e.Inert? then {key} else {}) + TouchedKeys(bundle[1..]);
      assert Resolvable1(act, bundle) <==>
        (e.Factory? ==> !act.Missing?) && (e.Nested? ==> Resolvable2(ActAccess(act, key), e.entries)) &&
        Resolvable1(act, bundle[1..]) by {
        assert forall i :: 1 <= i < |bundle| ==> bundle[i] == bundle[1..][i - 1];
      }
      match Step1(slot, act, key, e, call)
      case None => None
      case Some(next) => InitLevel1(next, act, bundle[1..], call)
  }

  /**
   * One iteration at command level, `key` bound to `e`: a function is
   * replaced by its value on `cAct[key]`; an object merges into
   * `out[key] ??= {}`; anything else is skipped.
   */
  function Step0(out: Entries<Val>, index: Entries<Act>, key: string, e: Entry, call: Factories): (r: Option<Entries<Val>>)
    ensures r.None? <==> e.Nested? && !Resolvable1(Find(index, key).GetOr(Missing), e.entries)
    ensures r.Some? ==> Keys(out) <= Keys(r.value)
    ensures r.Some? ==> forall k :: k != key || e.Inert? ==> Find(r.value, k) == Find(out, k)
    ensures r.Some? && e.Factory? ==> Find(r.value, key) == Some(call(e.id, Find(index, key).GetOr(Missing)))
    ensures r.Some? && e.Nested? ==>
      var before := MergeTarget(out, key);
      var after := Find(r.value, key);
      && after.Some? && after.value.Obj?
      && after.value.call == before.call
      && Keys(before.props) <= Keys(after.value.props)
      && forall k :: k !in TouchedKeys(e.entries) ==> Find(after.value.props, k) == Find(before.props, k)
  {
    var act := Find(index, key).GetOr(Missing);
    match e
    case Factory(f) => Some(Put(out, key, call(f, act)))
    case Nested(inner) =>
      var node := MergeTarget(out, key);
      (match InitLevel1(node.props, act, inner, call)
       case None => None
       case Some(props) => Some(Put(out, key, Obj(node.call, props))))
    case Inert => Some(out)
  }

  /** Command level: `for (key in handler)`. */
  function InitLevel0(out: Entries<Val>, index: Entries<Act>, bundle: Entries<Entry>, call: Factories): (r: Option<Entries<Val>>)
    ensures r.None? <==> !Resolvable0(index, bundle)
    ensures r.Some? ==> Keys(out) <= Keys(r.value)
    ensures r.Some? ==> forall k :: k !in TouchedKeys(bundle) ==> Find(r.value, k) == Find(out, k)
    decreases |bundle|
  {
    if |bundle| == 0 then Some(out)
    else
      var key := bundle[0].0;
      var e := bundle[0].1;
      assert TouchedKeys(bundle) == (if !e.Inert? then {key} else {}) + TouchedKeys(bundle[1..]);
      assert Resolvable0(index, bundle) <==>
        (e.Nested? ==> Resolvable1(Find(index, key).GetOr(Missing), e.entries)) && Resolvable0(index, bundle[1..]) by {
        assert forall i :: 1 <= i < |bundle| ==> bundle[i] == bundle[1..][i - 1];
      }
      match Step0(out, index, key, e, call)
      case None => None
      case Some(next) => InitLevel0(next, index, bundle[1..], call)
  }

  /** One registration merged into the tree built so far. */
  function InitCommand(out: Entries<Val>, c: Command, call: Factories): (r: Option<Entries<Val>>)
    ensures r.None? <==> !Resolvable0(CommandToAct(c.descriptor).entries, c.handler)
    ensures r.Some? ==> forall k :: k !in TouchedKeys(c.handler) ==> Find(r.value, k) == Find(out, k)
  {
    InitLevel0(out, CommandToAct(c.descriptor).entries, c.handler, call)
  }

  /** Every registration can be initialised without a throwing index read. */
  predicate AllResolvable(commands: seq<Command>) {
    forall i :: 0 <= i < |commands| ==> Resolvable0(CommandToAct(commands[i].descriptor).entries, commands[i].handler)
  }

  /** The registrations merged in order into `out`. */
  function InitAll(out: Entries<Val>, commands: seq<Command>, call: Factories): (r: Option<Entries<Val>>)
    ensures r.None? <==> !AllResolvable(commands)
    decreases |commands|
  {
    if |commands| == 0 then Some(out)
    else
      assert AllResolvable(commands) <==>
        Resolvable0(CommandToAct(commands[0].descriptor).entries, commands[0].handler) && AllResolvable(commands[1..]) by {
        assert forall i :: 1 <= i < |commands| ==> commands[i] == commands[1..][i - 1];
      }
      match InitCommand(out, commands[0], call)
      case None => None
      case Some(next) => InitAll(next, commands[1..], call)
  }

  /**
   * `commandsInit(commands)`: the compiled tree, or `None` when the
   * initialisation throws (a bundle reads a slice below a missing index entry).
   */
  function CommandsInit(commands: seq<Command>, call: Factories): (tree: Option<Val>)
    ensures tree.None? <==> !AllResolvable(commands)
    ensures tree.Some? ==> tree.value.Obj? && tree.value.call.None?
  {
    match InitAll([], commands, call)
    case None => None
    case Some(props) => Some(Obj(None, props))
  }
}
