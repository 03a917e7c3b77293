/**
 * Compilation and dispatch together, for a chat-input command with one
 * subcommand group `group` holding one subcommand `sub`.
 */
module EndToEnd {
  import opened Wrappers
  import opened Assoc
  import opened JsValue
  import opened Descriptor
  import opened Compiler
  import opened Interactions
  import opened Router

  /** The descriptor's subcommand option. */
  function SubOption(sub: string): OptionDesc {
    OptionDesc(sub, SUBCOMMAND, None)
  }

  /** One registration: `name` with group `group` holding subcommand `sub`, whose factory is `f`. */
  function GroupCommand(name: string, group: string, sub: string, f: FactoryId): Command {
    Command(
      CommandDesc(name, CHAT_INPUT, Some([OptionDesc(group, SUBCOMMAND_GROUP, Some([SubOption(sub)]))])),
      [(name, Nested([(group, Nested([(sub, Factory(f))]))]))])
  }

  /** The interaction invoking `name group sub`. */
  function GroupInvocation(name: string, group: string, sub: string): Interaction {
    ApplicationCommand(CommandData(CHAT_INPUT, name, Some([DataOption(SUBCOMMAND_GROUP, group, [DataOption(SUBCOMMAND, sub, [])])])))
  }

  /** The object a subcommand factory returns: one `command` hook. */
  function CommandBundle(h: HandlerId): Val {
    Obj(None, [(COMMAND_HOOK, Fn(h))])
  }

  /** The tree the registration compiles to: `{name: {group: {sub: {command: h}}}}`. */
  function GroupTree(name: string, group: string, sub: string, h: HandlerId): Val {
    Obj(None, [(name, Obj(None, [(group, Obj(None, [(sub, CommandBundle(h))]))]))])
  }

  /** The descriptor index of the registration: the group's slice holds the subcommand's own option. */
  lemma GroupIndex(name: string, group: string, sub: string, f: FactoryId)
    ensures CommandToAct(GroupCommand(name, group, sub, f).descriptor).entries
         == [(name, Index([(group, Index([(sub, Raw(SubOption(sub)))]))]))]
  {
    var gopt := OptionDesc(group, SUBCOMMAND_GROUP, Some([SubOption(sub)]));
    assert AssociateBy([SubOption(sub)]) == [(sub, SubOption(sub))];
    assert IndexOf([SubOption(sub)], 1) == Index([(sub, Raw(SubOption(sub)))]);
    assert AssociateBy([gopt]) == [(group, gopt)];
    assert IndexOf([gopt], 2) == Index([(group, Index([(sub, Raw(SubOption(sub)))]))]);
  }

  /** The registration compiles, and its factory is called on the subcommand's own option. */
  lemma GroupCompiles(name: string, group: string, sub: string, f: FactoryId, h: HandlerId, call: Factories)
    requires call(f, Raw(SubOption(sub))) == CommandBundle(h)
    ensures CommandsInit([GroupCommand(name, group, sub, f)], call) == Some(GroupTree(name, group, sub, h))
  {
    var c := GroupCommand(name, group, sub, f);
    GroupIndex(name, group, sub, f);
    GroupMerges(name, group, sub, f, h, call);
    assert InitAll([], [c], call) == Some(GroupTree(name, group, sub, h).props) by {
      assert [c][1..] == [];
    }
  }

  /** The handler bundle merged level by level into the empty tree. */
  lemma GroupMerges(name: string, group: string, sub: string, f: FactoryId, h: HandlerId, call: Factories)
    requires call(f, Raw(SubOption(sub))) == CommandBundle(h)
    ensures
      var top := Index([(group, Index([(sub, Raw(SubOption(sub)))]))]);
      InitLevel0([], [(name, top)], GroupCommand(name, group, sub, f).handler, call) == Some(GroupTree(name, group, sub, h).props)
  {
    var top := Index([(group, Index([(sub, Raw(SubOption(sub)))]))]);
    var leaf := [(sub, CommandBundle(h))];
    assert InitLevel2([], ActAccess(top, group), [(sub, Factory(f))], call) == Some(leaf);
    var mid := [(group, Obj(None, leaf))];
    assert InitLevel1([], top, [(group, Nested([(sub, Factory(f))]))], call) == Some(mid);
  }

  /** Invoking `name group sub` on the compiled tree runs the subcommand's `command` hook. */
  lemma GroupDispatches(name: string, group: string, sub: string, h: HandlerId, run: Runner)
    ensures
      var tree := GroupTree(name, group, sub, h);
      var interaction := GroupInvocation(name, group, sub);
      var reply := run(h, CommandContext(interaction, Get(tree, name)));
      Dispatch(tree, interaction, run) == (if reply.Nullish? then Fallback(COMMAND_UNDEFINED) else Respond(reply))
  {
    var tree := GroupTree(name, group, sub, h);
    var node := Get(tree, name);
    var option := DataOption(SUBCOMMAND_GROUP, group, [DataOption(SUBCOMMAND, sub, [])]);
    assert FirstSubcommand(option.options) == Some(DataOption(SUBCOMMAND, sub, []));
    assert Walk(node, [group, sub]) == Some(CommandBundle(h)) by {
      assert [group, sub][1..] == [sub];
      assert [sub][1..] == [];
    }
  }

  /**
   * The registration compiles, its factory receives the subcommand's own
   * option, and invoking `name group sub` runs that subcommand's `command`
   * handler and no other.
   */
  lemma GroupSubcommandDispatch(name: string, group: string, sub: string, f: FactoryId, h: HandlerId, call: Factories, run: Runner)
    requires call(f, Raw(SubOption(sub))) == CommandBundle(h)
    ensures CommandsInit([GroupCommand(name, group, sub, f)], call).Some?
    ensures
      var tree := CommandsInit([GroupCommand(name, group, sub, f)], call).value;
      var interaction := GroupInvocation(name, group, sub);
      var reply := run(h, CommandContext(interaction, Get(tree, name)));
      Dispatch(tree, interaction, run) == (if reply.Nullish? then Fallback(COMMAND_UNDEFINED) else Respond(reply))
  {
    GroupCompiles(name, group, sub, f, h, call);
    GroupDispatches(name, group, sub, h, run);
  }
}
