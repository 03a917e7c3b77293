/**
 * Command descriptors and the name-keyed index `commandToAct` derives from
 * them, which the compiler passes to each handler factory.
 */
module Descriptor {
  import opened Wrappers
  import opened Assoc

  /** One descriptor option: its name, its option-type code and, for subcommands and groups, its own options. */
  datatype OptionDesc = OptionDesc(name: string, kind: int, options: Option<seq<OptionDesc>>)

  /** A command descriptor: name, command-type code and optional top-level options. */
  datatype CommandDesc = CommandDesc(name: string, commandType: int, options: Option<seq<OptionDesc>>)

  /**
   * A value of the index: `undefined`, an option object kept as given, or an
   * object keyed by option name.
   */
  datatype Act = Missing | Raw(option: OptionDesc) | Index(entries: Entries<Act>)

  /** The names of the options, in order. */
  function Names(opts: seq<OptionDesc>): (ns: seq<string>)
    ensures |ns| == |opts|
    ensures forall i :: 0 <= i < |opts| ==> ns[i] == opts[i].name
  {
    if |opts| == 0 then [] else [opts[0].name] + Names(opts[1..])
  }

  /** No later option has the same name as `opts[i]`. */
  predicate LastOfName(opts: seq<OptionDesc>, i: int)
    requires 0 <= i < |opts|
  {
    forall j :: i < j < |opts| ==> opts[j].name != opts[i].name
  }

  /**
   * `associateBy(opts, v => v.name)`: one entry per distinct name, in order of
   * first occurrence, holding the last option of that name.
   */
  function AssociateBy(opts: seq<OptionDesc>): (r: Entries<OptionDesc>)
    ensures Distinct(Keys(r))
    ensures forall k :: k in Keys(r) <==> k in Names(opts)
  {
    if |opts| == 0 then []
    else
      var last := opts[|opts| - 1];
      var prev := AssociateBy(opts[..|opts| - 1]);
      AssociateByStep(prev, opts);
      Put(prev, last.name, last)
  }

  /** One assignment of the `associateBy` loop keeps the keys distinct and equal to the names seen so far. */
  lemma AssociateByStep(prev: Entries<OptionDesc>, opts: seq<OptionDesc>)
    requires |opts| > 0
    requires Distinct(Keys(prev))
    requires forall k :: k in Keys(prev) <==> k in Names(opts[..|opts| - 1])
    ensures Distinct(Keys(Put(prev, opts[|opts| - 1].name, opts[|opts| - 1])))
    ensures forall k :: k in Keys(Put(prev, opts[|opts| - 1].name, opts[|opts| - 1])) <==> k in Names(opts)
  {
    var init := opts[..|opts| - 1];
    var last := opts[|opts| - 1];
    assert opts == init + [last];
    NamesSnoc(init, last);
    PutKeepsDistinct(prev, last.name, last);
    PutKeySet(prev, last.name, last);
  }

  /** The names of a list with one more option at the end. */
  lemma NamesSnoc(opts: seq<OptionDesc>, o: OptionDesc)
    ensures Names(opts + [o]) == Names(opts) + [o.name]
  {
  }

  /** Reading a name from `associateBy` yields the last option of that name. */
  lemma {:induction false} AssociateByLast(opts: seq<OptionDesc>, i: nat)
    requires i < |opts| && LastOfName(opts, i)
    ensures Find(AssociateBy(opts), opts[i].name) == Some(opts[i])
  {
    var init := opts[..|opts| - 1];
    if i < |opts| - 1 {
      assert LastOfName(init, i);
      AssociateByLast(init, i);
    }
  }

  /** What an option becomes in the index with `levels` levels of nesting still expanded. */
  function Expand(o: OptionDesc, levels: nat): (a: Act)
    ensures !a.Missing?
    decreases levels, 0
  {
    if levels > 0 && o.options.Some? then IndexOf(o.options.value, levels - 1) else Raw(o)
  }

  /** The index of an option list: `associateBy` by name, each option expanded one level less. */
  function IndexOf(opts: seq<OptionDesc>, levels: nat): (a: Act)
    ensures a.Index?
    ensures Distinct(Keys(a.entries))
    ensures forall k :: k in Keys(a.entries) <==> k in Names(opts)
    decreases levels, 1
  {
    var byName := AssociateBy(opts);
    var es := seq(|byName|, i requires 0 <= i < |byName| => (byName[i].0, Expand(byName[i].1, levels)));
    SameKeys(byName, es);
    Index(es)
  }

  /**
   * `commandToAct(command)`: an object with the single key `command.name`,
   * holding `{}` when the command has no options and otherwise the option
   * index expanded down to the subcommands of groups.
   */
  function CommandToAct(c: CommandDesc): (a: Act)
    ensures a.Index? && Keys(a.entries) == [c.name]
    ensures forall key :: key != c.name ==> ActAccess(a, key) == Some(Missing)
    ensures c.options.None? ==> ActAccess(a, c.name) == Some(Index([]))
    ensures c.options.Some? ==> ActAccess(a, c.name) == Some(IndexOf(c.options.value, 2))
  {
    Index([(c.name, if c.options.Some? then IndexOf(c.options.value, 2) else Index([]))])
  }

  /** `a[key]`: `None` where JavaScript throws (reading from `undefined`); an option object's own fields are not modelled. */
  function ActAccess(a: Act, key: string): (r: Option<Act>)
    ensures r.None? <==> a.Missing?
  {
    match a
    case Missing => None
    case Raw(_) => Some(Missing)
    case Index(es) => Some(Find(es, key).GetOr(Missing))
  }

  /** Successive reads along a path, `None` where one throws. */
  function ActWalk(a: Act, path: seq<string>): Option<Act>
    decreases |path|
  {
    if |path| == 0 then Some(a)
    else match ActAccess(a, path[0])
      case None => None
      case Some(next) => ActWalk(next, path[1..])
  }

  /** The entries of an option index, one per `associateBy` entry, in the same order. */
  lemma IndexOfEntries(opts: seq<OptionDesc>, levels: nat)
    ensures IndexOf(opts, levels).Index?
    ensures
      var byName := AssociateBy(opts);
      var es := IndexOf(opts, levels).entries;
      && |es| == |byName| && Keys(es) == Keys(byName)
      && forall j :: 0 <= j < |es| ==> es[j] == (byName[j].0, Expand(byName[j].1, levels))
  {
  }

  /** Reading a name from an option index yields the last option of that name, expanded; other names are absent. */
  lemma IndexOfLookup(opts: seq<OptionDesc>, levels: nat, i: nat)
    requires i < |opts| && LastOfName(opts, i)
    ensures ActAccess(IndexOf(opts, levels), opts[i].name) == Some(Expand(opts[i], levels))
  {
    var byName := AssociateBy(opts);
    var es := IndexOf(opts, levels).entries;
    IndexOfEntries(opts, levels);
    AssociateByLast(opts, i);
    var j :| 0 <= j < |byName| && byName[j] == (opts[i].name, opts[i]);
    FindDistinct(es, j);
    assert es[j] == (opts[i].name, Expand(opts[i], levels));
  }

  /** A name that no option carries is absent from the index. */
  lemma IndexOfAbsent(opts: seq<OptionDesc>, levels: nat, name: string)
    requires name !in Names(opts)
    ensures ActAccess(IndexOf(opts, levels), name) == Some(Missing)
  {
    var es := IndexOf(opts, levels).entries;
    assert Keys(es) == Keys(AssociateBy(opts));
  }

  /** Reading a key of `commandToAct` reads its single entry. */
  lemma CommandToActAccess(c: CommandDesc, key: string)
    ensures ActAccess(CommandToAct(c), key) == Some(Find(CommandToAct(c).entries, key).GetOr(Missing))
  {
  }

  /** A top-level option of the command is found at `[name, option]`, expanded two more levels. */
  lemma {:induction false} CommandToActOption(c: CommandDesc, i: nat)
    requires c.options.Some? && i < |c.options.value| && LastOfName(c.options.value, i)
    ensures ActWalk(CommandToAct(c), [c.name, c.options.value[i].name]) == Some(Expand(c.options.value[i], 2))
  {
    var opts := c.options.value;
    var top := IndexOf(opts, 2);
    IndexOfLookup(opts, 2, i);
    ActWalkStep(CommandToAct(c), c.name, [opts[i].name]);
    ActWalkStep(top, opts[i].name, []);
  }

  /** A child of a top-level option (a group's subcommand) is found at `[name, option, child]`, expanded one more level. */
  lemma {:induction false} CommandToActChild(c: CommandDesc, i: nat, j: nat)
    requires c.options.Some? && i < |c.options.value| && LastOfName(c.options.value, i)
    requires c.options.value[i].options.Some?
    requires j < |c.options.value[i].options.value| && LastOfName(c.options.value[i].options.value, j)
    ensures
      var o := c.options.value[i];
      ActWalk(CommandToAct(c), [c.name, o.name, o.options.value[j].name]) == Some(Expand(o.options.value[j], 1))
  {
    var opts := c.options.value;
    var o := opts[i];
    var sub := o.options.value;
    var top := IndexOf(opts, 2);
    IndexOfLookup(opts, 2, i);
    assert Expand(o, 2) == IndexOf(sub, 1);
    IndexOfLookup(sub, 1, j);
    ActWalkStep(CommandToAct(c), c.name, [o.name, sub[j].name]);
    ActWalkStep(top, o.name, [sub[j].name]);
    ActWalkStep(IndexOf(sub, 1), sub[j].name, []);
  }

  /** Two entry lists with the same key at every position have the same keys. */
  lemma SameKeys<A, B>(a: Entries<A>, b: Entries<B>)
    requires |a| == |b| && forall i :: 0 <= i < |a| ==> a[i].0 == b[i].0
    ensures Keys(a) == Keys(b)
  {
  }

  /** A walk along two keys that does not throw. */
  lemma ActWalkTwo(a: Act, k1: string, k2: string)
    requires ActAccess(a, k1).Some? && ActAccess(ActAccess(a, k1).value, k2).Some?
    ensures ActWalk(a, [k1, k2]) == ActAccess(ActAccess(a, k1).value, k2)
  {
    ActWalkStep(a, k1, [k2]);
    ActWalkStep(ActAccess(a, k1).value, k2, []);
  }

  /** A walk along three keys that does not throw. */
  lemma ActWalkThree(a: Act, k1: string, k2: string, k3: string)
    requires ActAccess(a, k1).Some? && ActAccess(ActAccess(a, k1).value, k2).Some?
    requires ActAccess(ActAccess(ActAccess(a, k1).value, k2).value, k3).Some?
    ensures ActWalk(a, [k1, k2, k3]) == ActAccess(ActAccess(ActAccess(a, k1).value, k2).value, k3)
  {
    ActWalkStep(a, k1, [k2, k3]);
    ActWalkTwo(ActAccess(a, k1).value, k2, k3);
  }

  /** One step of a path walk. */
  lemma ActWalkStep(a: Act, key: string, rest: seq<string>)
    requires !a.Missing?
    ensures ActWalk(a, [key] + rest) == ActWalk(ActAccess(a, key).value, rest)
  {
    assert ([key] + rest)[1..] == rest;
  }
}
