/**
 * What the compiled tree holds: each function slot keeps the value of its
 * last writer, object levels keep the keys other entries put there, and a
 * bundle shaped like its descriptor always compiles.
 */
module CompilerProperties {
  import opened Wrappers
  import opened Assoc
  import opened JsValue
  import opened Descriptor
  import opened Compiler

  /** Later keys of a bundle without repeated keys differ from its first key. */
  lemma {:induction false} RestAvoidsFirst(bundle: Entries<Entry>)
    requires Distinct(Keys(bundle)) && |bundle| > 0
    ensures Distinct(Keys(bundle[1..]))
    ensures bundle[0].0 !in TouchedKeys(bundle[1..])
    ensures bundle[0].0 !in FactoryKeys(bundle[1..])
  {
    assert Keys(bundle[1..]) == Keys(bundle)[1..];
    forall j | 0 <= j < |bundle| - 1
      ensures bundle[1..][j].0 != bundle[0].0
    {
      assert Keys(bundle)[0] != Keys(bundle)[j + 1];
    }
  }

  /** An iteration's effect on its own key depends only on what that key held before. */
  lemma Step0Local(a: Entries<Val>, b: Entries<Val>, index: Entries<Act>, key: string, e: Entry, call: Factories)
    requires Find(a, key) == Find(b, key)
    requires Step0(a, index, key, e, call).Some?
    ensures Find(Step0(a, index, key, e, call).value, key) == Find(Step0(b, index, key, e, call).value, key)
  {
    assert MergeTarget(a, key) == MergeTarget(b, key);
  }

  lemma Step1Local(a: Entries<Val>, b: Entries<Val>, act: Act, key: string, e: Entry, call: Factories)
    requires Find(a, key) == Find(b, key)
    requires Step1(a, act, key, e, call).Some?
    ensures Find(Step1(a, act, key, e, call).value, key) == Find(Step1(b, act, key, e, call).value, key)
  {
    assert MergeTarget(a, key) == MergeTarget(b, key);
  }

  /**
   * Command level: the final value at a bundle key is what that key's own
   * entry makes of the value the key held before the bundle was merged.
   */
  lemma {:induction false} Level0Final(out: Entries<Val>, index: Entries<Act>, bundle: Entries<Entry>, call: Factories, i: nat)
    requires Distinct(Keys(bundle)) && i < |bundle|
    requires InitLevel0(out, index, bundle, call).Some?
    ensures Step0(out, index, bundle[i].0, bundle[i].1, call).Some?
    ensures Find(InitLevel0(out, index, bundle, call).value, bundle[i].0)
         == Find(Step0(out, index, bundle[i].0, bundle[i].1, call).value, bundle[i].0)
    decreases |bundle|
  {
    var next := Step0(out, index, bundle[0].0, bundle[0].1, call).value;
    RestAvoidsFirst(bundle);
    if i > 0 {
      assert bundle[i] == bundle[1..][i - 1];
      assert bundle[i].0 != bundle[0].0 by { assert Keys(bundle)[0] != Keys(bundle)[i]; }
      Level0Final(next, index, bundle[1..], call, i - 1);
      Step0Local(next, out, index, bundle[i].0, bundle[i].1, call);
    }
  }

  /** Group level: as `Level0Final`, one level down. */
  lemma {:induction false} Level1Final(slot: Entries<Val>, act: Act, bundle: Entries<Entry>, call: Factories, i: nat)
    requires Distinct(Keys(bundle)) && i < |bundle|
    requires InitLevel1(slot, act, bundle, call).Some?
    ensures Step1(slot, act, bundle[i].0, bundle[i].1, call).Some?
    ensures Find(InitLevel1(slot, act, bundle, call).value, bundle[i].0)
         == Find(Step1(slot, act, bundle[i].0, bundle[i].1, call).value, bundle[i].0)
    decreases |bundle|
  {
    var next := Step1(slot, act, bundle[0].0, bundle[0].1, call).value;
    RestAvoidsFirst(bundle);
    if i > 0 {
      assert bundle[i] == bundle[1..][i - 1];
      assert bundle[i].0 != bundle[0].0 by { assert Keys(bundle)[0] != Keys(bundle)[i]; }
      Level1Final(next, act, bundle[1..], call, i - 1);
      Step1Local(next, slot, act, bundle[i].0, bundle[i].1, call);
    }
  }

  /** Subcommand level: a function entry leaves its value on its slice in the slot. */
  lemma {:induction false} Level2Factory(slot: Entries<Val>, act: Option<Act>, bundle: Entries<Entry>, call: Factories, i: nat)
    requires Distinct(Keys(bundle)) && i < |bundle| && bundle[i].1.Factory?
    requires InitLevel2(slot, act, bundle, call).Some?
    ensures act.Some? && ActAccess(act.value, bundle[i].0).Some?
    ensures Find(InitLevel2(slot, act, bundle, call).value, bundle[i].0)
         == Some(call(bundle[i].1.id, ActAccess(act.value, bundle[i].0).value))
    decreases |bundle|
  {
    var next := Step2(slot, act, bundle[0].0, bundle[0].1, call).value;
    assert InitLevel2(slot, act, bundle, call) == InitLevel2(next, act, bundle[1..], call);
    RestAvoidsFirst(bundle);
    if i > 0 {
      assert bundle[i] == bundle[1..][i - 1];
      Level2Factory(next, act, bundle[1..], call, i - 1);
    }
  }

  /** A function at command depth is replaced by its value on `cAct[key]`, whatever the key held before. */
  lemma FactoryAtCommand(out: Entries<Val>, index: Entries<Act>, bundle: Entries<Entry>, call: Factories, i: nat)
    requires Distinct(Keys(bundle)) && i < |bundle| && bundle[i].1.Factory?
    requires InitLevel0(out, index, bundle, call).Some?
    ensures Find(InitLevel0(out, index, bundle, call).value, bundle[i].0)
         == Some(call(bundle[i].1.id, Find(index, bundle[i].0).GetOr(Missing)))
  {
    Level0Final(out, index, bundle, call, i);
  }

  /**
   * An object at command depth merges into the node already there: the node
   * stays callable if it was, and every key of it the group bundle does not
   * assign keeps its value and its position.
   */
  lemma MergeAtCommand(out: Entries<Val>, index: Entries<Act>, bundle: Entries<Entry>, call: Factories, i: nat)
    requires Distinct(Keys(bundle)) && i < |bundle| && bundle[i].1.Nested?
    requires InitLevel0(out, index, bundle, call).Some?
    ensures
      var before := MergeTarget(out, bundle[i].0);
      var after := Find(InitLevel0(out, index, bundle, call).value, bundle[i].0);
      && after.Some? && after.value.Obj?
      && after.value.call == before.call
      && Keys(before.props) <= Keys(after.value.props)
      && forall k :: k !in TouchedKeys(bundle[i].1.entries) ==> Find(after.value.props, k) == Find(before.props, k)
  {
    Level0Final(out, index, bundle, call, i);
  }

  /** A function at group depth is replaced by its value on `cAct[key][key2]`. */
  lemma FactoryAtGroup(slot: Entries<Val>, act: Act, bundle: Entries<Entry>, call: Factories, i: nat)
    requires Distinct(Keys(bundle)) && i < |bundle| && bundle[i].1.Factory?
    requires InitLevel1(slot, act, bundle, call).Some?
    ensures ActAccess(act, bundle[i].0).Some?
    ensures Find(InitLevel1(slot, act, bundle, call).value, bundle[i].0)
         == Some(call(bundle[i].1.id, ActAccess(act, bundle[i].0).value))
  {
    Level1Final(slot, act, bundle, call, i);
  }

  /** An object at group depth merges into the node already there, keeping the keys it does not assign. */
  lemma MergeAtGroup(slot: Entries<Val>, act: Act, bundle: Entries<Entry>, call: Factories, i: nat)
    requires Distinct(Keys(bundle)) && i < |bundle| && bundle[i].1.Nested?
    requires InitLevel1(slot, act, bundle, call).Some?
    ensures
      var before := MergeTarget(slot, bundle[i].0);
      var after := Find(InitLevel1(slot, act, bundle, call).value, bundle[i].0);
      && after.Some? && after.value.Obj?
      && after.value.call == before.call
      && Keys(before.props) <= Keys(after.value.props)
      && forall k :: k !in FactoryKeys(bundle[i].1.entries) ==> Find(after.value.props, k) == Find(before.props, k)
  {
    Level1Final(slot, act, bundle, call, i);
  }

  /** Merging registrations one after another is merging the first ones, then the rest. */
  lemma {:induction false} InitAllSplit(out: Entries<Val>, a: seq<Command>, b: seq<Command>, call: Factories)
    requires InitAll(out, a + b, call).Some?
    ensures InitAll(out, a, call).Some?
    ensures InitAll(out, a + b, call) == InitAll(InitAll(out, a, call).value, b, call)
    decreases |a|
  {
    if |a| > 0 {
      var ab := a + b;
      assert ab[0] == a[0] && ab[1..] == a[1..] + b;
      assert InitCommand(out, a[0], call).Some?;
      var next := InitCommand(out, a[0], call).value;
      assert InitAll(out, ab, call) == InitAll(next, a[1..] + b, call);
      InitAllSplit(next, a[1..], b, call);
      assert InitAll(out, a, call) == InitAll(next, a[1..], call);
    } else {
      assert a + b == b;
    }
  }

  /** Registrations that do not assign a key leave it as it was. */
  lemma {:induction false} InitAllUntouched(out: Entries<Val>, commands: seq<Command>, call: Factories, key: string)
    requires InitAll(out, commands, call).Some?
    requires forall j :: 0 <= j < |commands| ==> key !in TouchedKeys(commands[j].handler)
    ensures Find(InitAll(out, commands, call).value, key) == Find(out, key)
    decreases |commands|
  {
    if |commands| > 0 {
      InitAllUntouched(InitCommand(out, commands[0], call).value, commands[1..], call, key);
    }
  }

  /**
   * The last registration to assign a command-level function slot decides it:
   * the tree holds that factory's value on its own command's index, whatever
   * earlier registrations put there, and later ones that do not mention the
   * key leave it alone.
   */
  lemma RegisteredFactory(commands: seq<Command>, call: Factories, i: nat, m: nat)
    requires CommandsInit(commands, call).Some?
    requires i < |commands|
    requires Distinct(Keys(commands[i].handler)) && m < |commands[i].handler|
    requires commands[i].handler[m].1.Factory?
    requires forall j :: i < j < |commands| ==> commands[i].handler[m].0 !in TouchedKeys(commands[j].handler)
    ensures
      var c := commands[i];
      Get(CommandsInit(commands, call).value, c.handler[m].0)
        == call(c.handler[m].1.id, ActAccess(CommandToAct(c.descriptor), c.handler[m].0).value)
  {
    RegisteredSlot(commands, call, i, m);
    assert CommandsInit(commands, call) == Some(Obj(None, InitAll([], commands, call).value));
  }

  /** `RegisteredFactory`, stated on the merged entries. */
  lemma RegisteredSlot(commands: seq<Command>, call: Factories, i: nat, m: nat)
    requires InitAll([], commands, call).Some?
    requires i < |commands|
    requires Distinct(Keys(commands[i].handler)) && m < |commands[i].handler|
    requires commands[i].handler[m].1.Factory?
    requires forall j :: i < j < |commands| ==> commands[i].handler[m].0 !in TouchedKeys(commands[j].handler)
    ensures
      var c := commands[i];
      Find(InitAll([], commands, call).value, c.handler[m].0)
        == Some(call(c.handler[m].1.id, ActAccess(CommandToAct(c.descriptor), c.handler[m].0).value))
  {
    var c := commands[i];
    var key := c.handler[m].0;
    LaterUntouched(commands, call, i, key);
    LastRegistration(commands[..i], c, call, m);
  }

  /** After a registration is merged last, its command-level function slot holds its factory's value. */
  lemma LastRegistration(a: seq<Command>, c: Command, call: Factories, m: nat)
    requires InitAll([], a + [c], call).Some?
    requires Distinct(Keys(c.handler)) && m < |c.handler| && c.handler[m].1.Factory?
    ensures Find(InitAll([], a + [c], call).value, c.handler[m].0)
         == Some(call(c.handler[m].1.id, ActAccess(CommandToAct(c.descriptor), c.handler[m].0).value))
  {
    InitAllSnoc([], a, c, call);
    FactoryAtCommand(InitAll([], a, call).value, CommandToAct(c.descriptor).entries, c.handler, call, m);
    CommandToActAccess(c.descriptor, c.handler[m].0);
  }

  /** Merging one more registration after the others. */
  lemma InitAllSnoc(out: Entries<Val>, a: seq<Command>, c: Command, call: Factories)
    requires InitAll(out, a + [c], call).Some?
    ensures InitAll(out, a, call).Some?
    ensures InitAll(out, a + [c], call) == InitCommand(InitAll(out, a, call).value, c, call)
  {
    InitAllSplit(out, a, [c], call);
    InitAllSingle(InitAll(out, a, call).value, c, call);
  }

  /** Merging a single registration. */
  lemma InitAllSingle(out: Entries<Val>, c: Command, call: Factories)
    ensures InitAll(out, [c], call) == InitCommand(out, c, call)
  {
    assert [c][1..] == [];
  }

  /** Registrations after the `i`-th that do not mention a key leave it as the first `i + 1` made it. */
  lemma LaterUntouched(commands: seq<Command>, call: Factories, i: nat, key: string)
    requires InitAll([], commands, call).Some?
    requires i < |commands|
    requires forall j :: i < j < |commands| ==> key !in TouchedKeys(commands[j].handler)
    ensures InitAll([], commands[..i] + [commands[i]], call).Some?
    ensures Find(InitAll([], commands, call).value, key) == Find(InitAll([], commands[..i] + [commands[i]], call).value, key)
  {
    LaterUntouchedPrefix(commands, call, i, key);
    PrefixSnoc(commands, i);
  }

  /** A prefix ending at `i` is the shorter prefix followed by element `i`. */
  lemma PrefixSnoc<T>(s: seq<T>, i: nat)
    requires i < |s|
    ensures s[..i + 1] == s[..i] + [s[i]]
  {
  }

  /** The same, stated on the prefix that ends at command `i`. */
  lemma LaterUntouchedPrefix(commands: seq<Command>, call: Factories, i: nat, key: string)
    requires InitAll([], commands, call).Some?
    requires i < |commands|
    requires forall j :: i < j < |commands| ==> key !in TouchedKeys(commands[j].handler)
    ensures InitAll([], commands[..i + 1], call).Some?
    ensures Find(InitAll([], commands, call).value, key) == Find(InitAll([], commands[..i + 1], call).value, key)
  {
    var post := commands[i + 1..];
    assert commands == commands[..i + 1] + post;
    InitAllSplit([], commands[..i + 1], post, call);
    InitAllUntouched(InitAll([], commands[..i + 1], call).value, post, call, key);
  }

  /** An object at command depth becomes the merge target holding the group-level merge of its bundle. */
  lemma NestedSlot0(out: Entries<Val>, index: Entries<Act>, bundle: Entries<Entry>, call: Factories, m: nat)
    requires Distinct(Keys(bundle)) && m < |bundle| && bundle[m].1.Nested?
    requires InitLevel0(out, index, bundle, call).Some?
    ensures
      var before := MergeTarget(out, bundle[m].0);
      var act := Find(index, bundle[m].0).GetOr(Missing);
      && InitLevel1(before.props, act, bundle[m].1.entries, call).Some?
      && Find(InitLevel0(out, index, bundle, call).value, bundle[m].0)
         == Some(Obj(before.call, InitLevel1(before.props, act, bundle[m].1.entries, call).value))
  {
    Level0Final(out, index, bundle, call, m);
  }

  /** An object at group depth becomes the merge target holding the subcommand-level merge of its bundle. */
  lemma NestedSlot1(slot: Entries<Val>, act: Act, bundle: Entries<Entry>, call: Factories, n: nat)
    requires Distinct(Keys(bundle)) && n < |bundle| && bundle[n].1.Nested?
    requires InitLevel1(slot, act, bundle, call).Some?
    ensures
      var before := MergeTarget(slot, bundle[n].0);
      && InitLevel2(before.props, ActAccess(act, bundle[n].0), bundle[n].1.entries, call).Some?
      && Find(InitLevel1(slot, act, bundle, call).value, bundle[n].0)
         == Some(Obj(before.call, InitLevel2(before.props, ActAccess(act, bundle[n].0), bundle[n].1.entries, call).value))
  {
    Level1Final(slot, act, bundle, call, n);
  }

  /** After a registration is merged last, its command-level object holds the group-level merge on its own index slice. */
  lemma LastRegistrationNode(a: seq<Command>, c: Command, call: Factories, m: nat)
    requires InitAll([], a + [c], call).Some?
    requires Distinct(Keys(c.handler)) && m < |c.handler| && c.handler[m].1.Nested?
    ensures InitAll([], a, call).Some?
    ensures
      var before := MergeTarget(InitAll([], a, call).value, c.handler[m].0);
      var act := ActAccess(CommandToAct(c.descriptor), c.handler[m].0).value;
      && InitLevel1(before.props, act, c.handler[m].1.entries, call).Some?
      && Find(InitAll([], a + [c], call).value, c.handler[m].0)
         == Some(Obj(before.call, InitLevel1(before.props, act, c.handler[m].1.entries, call).value))
  {
    InitAllSnoc([], a, c, call);
    NestedSlot0(InitAll([], a, call).value, CommandToAct(c.descriptor).entries, c.handler, call, m);
    CommandToActAccess(c.descriptor, c.handler[m].0);
  }

  /** Registrations after the `i`-th that do not mention its object key leave the node its merge made. */
  lemma RegisteredNode(commands: seq<Command>, call: Factories, i: nat, m: nat)
    requires InitAll([], commands, call).Some?
    requires i < |commands|
    requires Distinct(Keys(commands[i].handler)) && m < |commands[i].handler|
    requires commands[i].handler[m].1.Nested?
    requires forall j :: i < j < |commands| ==> commands[i].handler[m].0 !in TouchedKeys(commands[j].handler)
    ensures InitAll([], commands[..i], call).Some?
    ensures
      var c := commands[i];
      var before := MergeTarget(InitAll([], commands[..i], call).value, c.handler[m].0);
      var act := ActAccess(CommandToAct(c.descriptor), c.handler[m].0).value;
      && InitLevel1(before.props, act, c.handler[m].1.entries, call).Some?
      && Find(InitAll([], commands, call).value, c.handler[m].0)
         == Some(Obj(before.call, InitLevel1(before.props, act, c.handler[m].1.entries, call).value))
  {
    var c := commands[i];
    LaterUntouched(commands, call, i, c.handler[m].0);
    LastRegistrationNode(commands[..i], c, call, m);
  }

  /**
   * The last registration to mention a command-level object decides its
   * group-level function slots: `tree[key][key2]` holds the factory's value
   * on `cAct[key][key2]`.
   */
  lemma RegisteredGroupFactory(commands: seq<Command>, call: Factories, i: nat, m: nat, n: nat)
    requires CommandsInit(commands, call).Some?
    requires i < |commands|
    requires Distinct(Keys(commands[i].handler)) && m < |commands[i].handler|
    requires commands[i].handler[m].1.Nested?
    requires Distinct(Keys(commands[i].handler[m].1.entries)) && n < |commands[i].handler[m].1.entries|
    requires commands[i].handler[m].1.entries[n].1.Factory?
    requires forall j :: i < j < |commands| ==> commands[i].handler[m].0 !in TouchedKeys(commands[j].handler)
    ensures
      var c := commands[i];
      var path := [c.handler[m].0, c.handler[m].1.entries[n].0];
      && ActWalk(CommandToAct(c.descriptor), path).Some?
      && Walk(CommandsInit(commands, call).value, path)
         == Some(call(c.handler[m].1.entries[n].1.id, ActWalk(CommandToAct(c.descriptor), path).value))
  {
    var c := commands[i];
    var key := c.handler[m].0;
    var inner := c.handler[m].1.entries;
    var key2 := inner[n].0;
    RegisteredNode(commands, call, i, m);
    var before := MergeTarget(InitAll([], commands[..i], call).value, key);
    var act := ActAccess(CommandToAct(c.descriptor), key).value;
    FactoryAtGroup(before.props, act, inner, call, n);
    var tree := CommandsInit(commands, call).value;
    assert tree == Obj(None, InitAll([], commands, call).value);
    WalkTwo(tree, key, key2);
    ActWalkTwo(CommandToAct(c.descriptor), key, key2);
  }

  /**
   * The same one level further down: `tree[key][key2][key3]` holds the
   * factory's value on `cAct[key][key2][key3]`.
   */
  lemma RegisteredSubcommandFactory(commands: seq<Command>, call: Factories, i: nat, m: nat, n: nat, q: nat)
    requires CommandsInit(commands, call).Some?
    requires i < |commands|
    requires Distinct(Keys(commands[i].handler)) && m < |commands[i].handler|
    requires commands[i].handler[m].1.Nested?
    requires Distinct(Keys(commands[i].handler[m].1.entries)) && n < |commands[i].handler[m].1.entries|
    requires commands[i].handler[m].1.entries[n].1.Nested?
    requires Distinct(Keys(commands[i].handler[m].1.entries[n].1.entries))
    requires q < |commands[i].handler[m].1.entries[n].1.entries|
    requires commands[i].handler[m].1.entries[n].1.entries[q].1.Factory?
    requires forall j :: i < j < |commands| ==> commands[i].handler[m].0 !in TouchedKeys(commands[j].handler)
    ensures
      var c := commands[i];
      var e2 := c.handler[m].1.entries[n];
      var path := [c.handler[m].0, e2.0, e2.1.entries[q].0];
      && ActWalk(CommandToAct(c.descriptor), path).Some?
      && Walk(CommandsInit(commands, call).value, path)
         == Some(call(e2.1.entries[q].1.id, ActWalk(CommandToAct(c.descriptor), path).value))
  {
    var c := commands[i];
    var key := c.handler[m].0;
    var inner := c.handler[m].1.entries;
    var key2 := inner[n].0;
    var inner2 := inner[n].1.entries;
    var key3 := inner2[q].0;
    RegisteredNode(commands, call, i, m);
    var before := MergeTarget(InitAll([], commands[..i], call).value, key);
    var act := ActAccess(CommandToAct(c.descriptor), key).value;
    NestedSlot1(before.props, act, inner, call, n);
    var l1 := InitLevel1(before.props, act, inner, call).value;
    var before2 := MergeTarget(before.props, key2);
    Level2Factory(before2.props, ActAccess(act, key2), inner2, call, q);
    var tree := CommandsInit(commands, call).value;
    assert tree == Obj(None, InitAll([], commands, call).value);
    WalkThree(tree, key, key2, key3);
    ActWalkThree(CommandToAct(c.descriptor), key, key2, key3);
  }

  /**
   * Two registrations under distinct names compile into independent
   * subtrees: each name holds its own factory's value on its own index.
   */
  lemma DistinctCommandsIndependent(a: CommandDesc, b: CommandDesc, fa: FactoryId, fb: FactoryId, call: Factories)
    requires a.name != b.name
    ensures
      var commands := [Command(a, [(a.name, Factory(fa))]), Command(b, [(b.name, Factory(fb))])];
      && CommandsInit(commands, call).Some?
      && Get(CommandsInit(commands, call).value, a.name) == call(fa, ActAccess(CommandToAct(a), a.name).value)
      && Get(CommandsInit(commands, call).value, b.name) == call(fb, ActAccess(CommandToAct(b), b.name).value)
  {
    var commands := [Command(a, [(a.name, Factory(fa))]), Command(b, [(b.name, Factory(fb))])];
    assert AllResolvable(commands);
    assert a.name !in TouchedKeys(commands[1].handler);
    RegisteredFactory(commands, call, 0, 0);
    RegisteredFactory(commands, call, 1, 0);
  }

  /** Registering the same command name twice keeps only the later registration's value. */
  lemma DuplicateCommandLastWins(a: CommandDesc, b: CommandDesc, fa: FactoryId, fb: FactoryId, call: Factories)
    requires a.name == b.name
    ensures
      var commands := [Command(a, [(a.name, Factory(fa))]), Command(b, [(b.name, Factory(fb))])];
      && CommandsInit(commands, call).Some?
      && Get(CommandsInit(commands, call).value, a.name) == call(fb, ActAccess(CommandToAct(b), b.name).value)
  {
    var commands := [Command(a, [(a.name, Factory(fa))]), Command(b, [(b.name, Factory(fb))])];
    assert AllResolvable(commands);
    RegisteredFactory(commands, call, 1, 0);
  }

  /**
   * A bundle shaped like its descriptor: objects sit only under the command's
   * own name, and a group object holding functions is named after an option
   * of the command.
   */
  predicate WellKeyed(c: Command) {
    forall i :: 0 <= i < |c.handler| && c.handler[i].1.Nested? ==>
      && c.handler[i].0 == c.descriptor.name
      && forall j :: 0 <= j < |c.handler[i].1.entries| && c.handler[i].1.entries[j].1.Nested?
           && FactoryKeys(c.handler[i].1.entries[j].1.entries) != {}
           ==> c.descriptor.options.Some? && c.handler[i].1.entries[j].0 in Names(c.descriptor.options.value)
  }

  /** Every option name reads a present slice of an option index. */
  lemma IndexOfPresent(opts: seq<OptionDesc>, levels: nat, name: string)
    requires name in Names(opts)
    ensures ActAccess(IndexOf(opts, levels), name).Some?
    ensures !ActAccess(IndexOf(opts, levels), name).value.Missing?
  {
    var byName := AssociateBy(opts);
    var es := IndexOf(opts, levels).entries;
    IndexOfEntries(opts, levels);
    var k :| 0 <= k < |byName| && Keys(byName)[k] == name;
    FindDistinct(es, k);
  }

  /** A well-keyed registration never reads below a missing index entry, so it compiles. */
  lemma WellKeyedResolvable(c: Command)
    requires WellKeyed(c)
    ensures Resolvable0(CommandToAct(c.descriptor).entries, c.handler)
  {
    var index := CommandToAct(c.descriptor).entries;
    forall i | 0 <= i < |c.handler| && c.handler[i].1.Nested?
      ensures Resolvable1(Find(index, c.handler[i].0).GetOr(Missing), c.handler[i].1.entries)
    {
      var act := Find(index, c.handler[i].0).GetOr(Missing);
      assert act.Index?;
      var inner := c.handler[i].1.entries;
      forall j | 0 <= j < |inner| && inner[j].1.Nested?
        ensures Resolvable2(ActAccess(act, inner[j].0), inner[j].1.entries)
      {
        if FactoryKeys(inner[j].1.entries) != {} {
          IndexOfPresent(c.descriptor.options.value, 2, inner[j].0);
        }
      }
    }
  }
}
