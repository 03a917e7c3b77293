/**
 * Properties of dispatch: how a chat-input interaction picks its route, that
 * context-menu commands never nest, how metadata names map to tree paths,
 * and that the modal broadcast follows the reference traversal.
 */
module RouterProperties {
  import opened Wrappers
  import opened Assoc
  import opened JsValue
  import opened Text
  import opened Interactions
  import opened Broadcast
  import opened Router

  /**
   * A chat-input command without options is answered by the `command` hook
   * of `tree[name]` alone: an absent node gives 'command handler is
   * undefined', as does a nullish reply.
   */
  lemma ChatInputWithoutOptions(tree: Val, data: CommandData, run: Runner)
    requires tree.Obj? && data.commandType == CHAT_INPUT && data.options.None?
    ensures
      var node := Get(tree, data.name);
      Dispatch(tree, ApplicationCommand(data), run)
        == Invoke(node, COMMAND_HOOK, CommandContext(ApplicationCommand(data), node), run, COMMAND_UNDEFINED)
  {
  }

  /** An empty option array is not a missing one: the loop runs zero times and the default fallback answers. */
  lemma ChatInputEmptyOptions(tree: Val, data: CommandData, run: Runner)
    requires tree.Obj? && data.commandType == CHAT_INPUT && data.options == Some([])
    ensures Dispatch(tree, ApplicationCommand(data), run) == Fallback(DEFAULT_FALLBACK)
  {
  }

  /** The option loop returns what the first deciding option's iteration returns. */
  lemma {:induction false} LoopFirstDecider(node: Val, options: seq<DataOption>, ctx: Context, run: Runner, i: nat)
    requires i < |options| && Decides(node, options[i])
    requires forall j :: 0 <= j < i ==> !Decides(node, options[j])
    ensures ChatInputLoop(node, options, ctx, run) == ChatInputStep(node, options[i], ctx, run)
    decreases i
  {
    if i > 0 {
      assert options[1..][i - 1] == options[i];
      LoopFirstDecider(node, options[1..], ctx, run, i - 1);
    }
  }

  /** Options after a deciding one are never examined: two lists agreeing up to it give the same result. */
  lemma {:induction false} LoopIgnoresLaterOptions(node: Val, a: seq<DataOption>, b: seq<DataOption>, ctx: Context, run: Runner, i: nat)
    requires i < |a| && i < |b| && a[..i + 1] == b[..i + 1]
    requires Decides(node, a[i])
    ensures ChatInputLoop(node, a, ctx, run) == ChatInputLoop(node, b, ctx, run)
    decreases i
  {
    assert a[0] == a[..i + 1][0] == b[..i + 1][0] == b[0];
    if !Decides(node, a[0]) {
      assert a[1..][..i] == a[..i + 1][1..] == b[..i + 1][1..] == b[1..][..i];
      LoopIgnoresLaterOptions(node, a[1..], b[1..], ctx, run, i - 1);
    }
  }

  /**
   * With options, the first deciding option in order picks the route; when
   * none decides, the loop ends and the default 'Unknown command' answers.
   */
  lemma ChatInputFirstDecidingOption(tree: Val, data: CommandData, run: Runner, i: nat)
    requires tree.Obj? && data.commandType == CHAT_INPUT && data.options.Some?
    requires i < |data.options.value| && Decides(Get(tree, data.name), data.options.value[i])
    requires forall j :: 0 <= j < i ==> !Decides(Get(tree, data.name), data.options.value[j])
    ensures
      var node := Get(tree, data.name);
      Dispatch(tree, ApplicationCommand(data), run)
        == ChatInputStep(node, data.options.value[i], CommandContext(ApplicationCommand(data), node), run).value
  {
    var node := Get(tree, data.name);
    LoopFirstDecider(node, data.options.value, CommandContext(ApplicationCommand(data), node), run, i);
  }

  /** No deciding option: the default fallback, whatever the tree holds below the command. */
  lemma ChatInputNoDecidingOption(tree: Val, data: CommandData, run: Runner)
    requires tree.Obj? && data.commandType == CHAT_INPUT && data.options.Some?
    requires forall j :: 0 <= j < |data.options.value| ==> !Decides(Get(tree, data.name), data.options.value[j])
    ensures Dispatch(tree, ApplicationCommand(data), run) == Fallback(DEFAULT_FALLBACK)
  {
  }

  /**
   * The first deciding option being a subcommand routes to `tree[name][sub]`,
   * wherever it stands among the options; reading below an absent command
   * throws.
   */
  lemma ChatInputSubcommand(tree: Val, data: CommandData, run: Runner, i: nat)
    requires tree.Obj? && data.commandType == CHAT_INPUT && data.options.Some?
    requires i < |data.options.value| && data.options.value[i].kind == SUBCOMMAND
    requires forall j :: 0 <= j < i ==> !Decides(Get(tree, data.name), data.options.value[j])
    ensures
      var node := Get(tree, data.name);
      var o := Dispatch(tree, ApplicationCommand(data), run);
      match Walk(tree, [data.name, data.options.value[i].name])
      case None => o == Throws
      case Some(leaf) => o == Invoke(leaf, COMMAND_HOOK, CommandContext(ApplicationCommand(data), node), run, COMMAND_UNDEFINED)
  {
    var node := Get(tree, data.name);
    var sub := data.options.value[i].name;
    ChatInputFirstDecidingOption(tree, data, run, i);
    assert [data.name, sub][1..] == [sub];
    assert Walk(tree, [data.name, sub]) == Walk(node, [sub]);
    assert [sub][1..] == [];
  }

  /**
   * The first deciding option being a group routes to
   * `tree[name][group][sub]`, `sub` being the group's first subcommand,
   * wherever the group stands among the options; reading below a missing
   * level throws.
   */
  lemma ChatInputGroup(tree: Val, data: CommandData, run: Runner, i: nat)
    requires tree.Obj? && data.commandType == CHAT_INPUT && data.options.Some?
    requires i < |data.options.value| && data.options.value[i].kind == SUBCOMMAND_GROUP
    requires FirstSubcommand(data.options.value[i].options).Some?
    requires forall j :: 0 <= j < i ==> !Decides(Get(tree, data.name), data.options.value[j])
    ensures
      var node := Get(tree, data.name);
      var group := data.options.value[i];
      var sub := FirstSubcommand(group.options).value;
      var o := Dispatch(tree, ApplicationCommand(data), run);
      match Walk(tree, [data.name, group.name, sub.name])
      case None => o == Throws
      case Some(leaf) => o == Invoke(leaf, COMMAND_HOOK, CommandContext(ApplicationCommand(data), node), run, COMMAND_UNDEFINED)
  {
    var group := data.options.value[i];
    var sub := FirstSubcommand(group.options).value;
    ChatInputFirstDecidingOption(tree, data, run, i);
    assert [data.name, group.name, sub.name][1..] == [group.name, sub.name];
  }

  /**
   * A command absent from the tree: without options the 'command handler is
   * undefined' fallback; with a subcommand or group among the options the
   * read below the missing node throws; otherwise the default fallback.
   */
  lemma ChatInputAbsentCommand(tree: Val, data: CommandData, run: Runner)
    requires tree.Obj? && data.commandType == CHAT_INPUT && Get(tree, data.name).Undefined?
    ensures data.options.None? ==> Dispatch(tree, ApplicationCommand(data), run) == Fallback(COMMAND_UNDEFINED)
    ensures data.options.Some? && (exists i :: 0 <= i < |data.options.value| && Decides(Undefined, data.options.value[i]))
            ==> Dispatch(tree, ApplicationCommand(data), run) == Throws
    ensures data.options.Some? && (forall i :: 0 <= i < |data.options.value| ==> !Decides(Undefined, data.options.value[i]))
            ==> Dispatch(tree, ApplicationCommand(data), run) == Fallback(DEFAULT_FALLBACK)
  {
    if data.options.Some? && exists i :: 0 <= i < |data.options.value| && Decides(Undefined, data.options.value[i]) {
      var ops := data.options.value;
      var i := FirstDecider(Undefined, ops);
      ChatInputFirstDecidingOption(tree, data, run, i);
    }
  }

  /** The index of the first deciding option. */
  function FirstDecider(node: Val, options: seq<DataOption>): (i: nat)
    requires exists i :: 0 <= i < |options| && Decides(node, options[i])
    ensures i < |options| && Decides(node, options[i])
    ensures forall j :: 0 <= j < i ==> !Decides(node, options[j])
  {
    if Decides(node, options[0]) then 0
    else
      assert exists i :: 0 <= i < |options[1..]| && Decides(node, options[1..][i]) by {
        var i :| 0 <= i < |options| && Decides(node, options[i]);
        assert options[1..][i - 1] == options[i];
      }
      var k := FirstDecider(node, options[1..]);
      assert forall j :: 1 <= j <= k ==> options[j] == options[1..][j - 1];
      k + 1
  }

  /**
   * Context-menu commands never nest: they resolve at `tree[name]` whatever
   * options the interaction carries.
   */
  lemma ContextMenuAtDepthZero(tree: Val, data: CommandData, run: Runner)
    requires tree.Obj? && (data.commandType == USER || data.commandType == MESSAGE)
    ensures
      var node := Get(tree, data.name);
      Dispatch(tree, ApplicationCommand(data), run) == Invoke(node, COMMAND_HOOK, ContextMenuContext(node), run, COMMAND_UNDEFINED)
    ensures Dispatch(tree, ApplicationCommand(data), run) == Dispatch(tree, ApplicationCommand(data.(options := None)), run)
  {
  }

  /** A name made of one to three space-free segments routes along exactly those segments. */
  lemma {:induction false} PathOfJoin(path: seq<string>)
    requires 1 <= |path| <= 3
    requires forall i :: 0 <= i < |path| ==> ' ' !in path[i]
    ensures PathOf(Join(path, ' ')) == path
  {
    var name := Join(path, ' ');
    SplitJoin(path, ' ');
    SplitCount(name, ' ');
  }

  /**
   * A recorded name: the path's segments joined by spaces, followed, when the
   * path has all three segments, by an optional space and tail that the
   * limited split drops.
   */
  function RecordedName(path: seq<string>, tail: Option<string>): string {
    if tail.None? then Join(path, ' ') else Join(path, ' ') + [' '] + tail.value
  }

  /** A recorded name routes along its first one to three segments; anything after the third is ignored. */
  lemma PathOfRecordedName(path: seq<string>, tail: Option<string>)
    requires 1 <= |path| <= 3
    requires forall i :: 0 <= i < |path| ==> ' ' !in path[i]
    requires tail.Some? ==> |path| == 3
    ensures PathOf(RecordedName(path, tail)) == path
  {
    if tail.None? {
      PathOfJoin(path);
    } else {
      assert path[1..][1..] == path[2..] == [path[2]];
      assert Join(path[1..], ' ') == path[1] + [' '] + path[2];
      assert Join(path, ' ') == path[0] + [' '] + (path[1] + [' '] + path[2]);
      assert RecordedName(path, tail) == path[0] + [' '] + path[1] + [' '] + path[2] + [' '] + tail.value;
      SplitLimitThree(path[0], path[1], path[2], tail.value, ' ');
      assert path == [path[0], path[1], path[2]];
    }
  }

  /**
   * A component interaction whose metadata names `"cmd group sub"` walks the
   * tree along the first one to three segments and invokes
   * `messageComponent` at the node reached; a missing intermediate throws.
   */
  lemma ComponentRoutesByName(tree: Val, path: seq<string>, tail: Option<string>, run: Runner)
    requires tree.Obj? && 1 <= |path| <= 3
    requires forall i :: 0 <= i < |path| ==> ' ' !in path[i]
    requires tail.Some? ==> |path| == 3
    requires RecordedName(path, tail) != ""
    ensures
      var o := Dispatch(tree, MessageComponent(Some(Metadata(APPLICATION_COMMAND, Some(RecordedName(path, tail))))), run);
      match Walk(tree, path)
      case None => o == Throws
      case Some(node) => o == Invoke(node, COMPONENT_HOOK, ComponentContext, run, COMPONENT_UNDEFINED)
  {
    PathOfRecordedName(path, tail);
  }

  /** The same for a modal submission that carries metadata, with `modalSubmit`. */
  lemma ModalRoutesByName(tree: Val, modal: ModalData, path: seq<string>, tail: Option<string>, run: Runner)
    requires tree.Obj? && 1 <= |path| <= 3
    requires forall i :: 0 <= i < |path| ==> ' ' !in path[i]
    requires tail.Some? ==> |path| == 3
    requires RecordedName(path, tail) != ""
    ensures
      var o := Dispatch(tree, ModalSubmit(modal, Some(Metadata(APPLICATION_COMMAND, Some(RecordedName(path, tail))))), run);
      match Walk(tree, path)
      case None => o == Throws
      case Some(node) => o == Invoke(node, MODAL_HOOK, ModalContext(modal), run, MODAL_UNDEFINED)
  {
    PathOfRecordedName(path, tail);
  }

  /** An absent or empty recorded name gives its own fallback, for components and modals alike. */
  lemma MetadataWithoutName(tree: Val, modal: ModalData, name: Option<string>, run: Runner)
    requires tree.Obj? && (name.None? || name.value == "")
    ensures Dispatch(tree, MessageComponent(Some(Metadata(APPLICATION_COMMAND, name))), run) == Fallback(NAME_UNDEFINED)
    ensures Dispatch(tree, ModalSubmit(modal, Some(Metadata(APPLICATION_COMMAND, name))), run) == Fallback(NAME_UNDEFINED)
  {
  }

  /**
   * A modal submission without command metadata tries the `modalSubmit`
   * hooks of the reference nodes in depth-first insertion order: the first
   * truthy reply is the answer, a non-function hook throws, and when none
   * answers the 'modalSubmit handler is undefined' fallback does.
   */
  lemma ModalBroadcast(tree: Val, modal: ModalData, metadata: Option<Metadata>, run: Runner)
    requires tree.Obj? && !NamesCommand(metadata)
    ensures
      var o := Dispatch(tree, ModalSubmit(modal, metadata), run);
      match FirstResponder(tree, ModalNodes(tree, ForInKeys(tree), 1), ModalContext(modal), run)
      case Some(r) => o == r
      case None => o == Fallback(MODAL_UNDEFINED)
  {
    SweepIsFirstResponder(tree, ForInKeys(tree), 1, ModalContext(modal), run);
  }
}
