/**
 * The dispatch closure `createHandler` returns: a state machine over the
 * interaction type that resolves a node of the compiled tree and invokes one
 * of its hooks, or answers with a fallback message.
 */
module Router {
  import opened Wrappers
  import opened Assoc
  import opened JsValue
  import Text
  import opened Interactions
  import opened Broadcast

  /**
   * `node?.[hook](ctx) ?? unknownCommand(missing)`: a reply only ever comes
   * from the hook of a defined node; a nullish reply or an undefined node
   * gives the fallback; a defined node whose hook is not a function throws.
   */
  function Invoke(node: Val, hook: string, ctx: Context, run: Runner, missing: string): (o: Outcome)
    ensures o.Respond? ==> node.Obj? && Callable(Get(node, hook)) && o.reply == run(Get(node, hook).call.value, ctx)
    ensures o.Respond? ==> o.reply != Nullish
    ensures node.Obj? && Callable(Get(node, hook)) && run(Get(node, hook).call.value, ctx) != Nullish
            ==> o == Respond(run(Get(node, hook).call.value, ctx))
    ensures o.Fallback? <==> node.Undefined? || (node.Obj? && Callable(Get(node, hook)) && run(Get(node, hook).call.value, ctx) == Nullish)
    ensures o.Fallback? ==> o.content == missing
    ensures o.Throws? <==> node.Obj? && !Callable(Get(node, hook))
    ensures o != Pong
  {
    if node.Undefined? then UnknownCommand(Some(missing))
    else
      var f := Get(node, hook);
      if !Callable(f) then Throws
      else
        var reply := run(f.call.value, ctx);
        if reply.Nullish? then UnknownCommand(Some(missing)) else Respond(reply)
  }

  /** The inner loop over a group's options: its first subcommand, if any. */
  function FirstSubcommand(opts: seq<DataOption>): (r: Option<DataOption>)
    ensures r.None? <==> forall i :: 0 <= i < |opts| ==> opts[i].kind != SUBCOMMAND
    ensures r.Some? ==> exists i :: 0 <= i < |opts| && opts[i] == r.value && opts[i].kind == SUBCOMMAND
                                     && forall j :: 0 <= j < i ==> opts[j].kind != SUBCOMMAND
  {
    if |opts| == 0 then None
    else if opts[0].kind == SUBCOMMAND then Some(opts[0])
    else
      var r := FirstSubcommand(opts[1..]);
      assert forall i :: 1 <= i < |opts| ==> opts[i] == opts[1..][i - 1];
      if r.Some? then
        var i :| 0 <= i < |opts[1..]| && opts[1..][i] == r.value && opts[1..][i].kind == SUBCOMMAND
                  && forall j :: 0 <= j < i ==> opts[1..][j].kind != SUBCOMMAND;
        assert opts[i + 1] == r.value;
        r
      else r
  }

  /**
   * An option decides the route when it is a subcommand, a group holding a
   * subcommand, or when the command node has a truthy `command` hook.
   */
  predicate Decides(node: Val, option: DataOption) {
    || option.kind == SUBCOMMAND
    || (option.kind == SUBCOMMAND_GROUP && exists i :: 0 <= i < |option.options| && option.options[i].kind == SUBCOMMAND)
    || Truthy(OptAccess(node, COMMAND_HOOK))
  }

  /**
   * One iteration of the chat-input option loop on the command node `node`;
   * `None` when it falls through to the next option.
   */
  function ChatInputStep(node: Val, option: DataOption, ctx: Context, run: Runner): (r: Option<Outcome>)
    ensures r.Some? <==> Decides(node, option)
    ensures r.Some? ==> r.value != Pong && (r.value.Respond? ==> r.value.reply != Nullish)
  {
    if option.kind == SUBCOMMAND then
      Some(match Access(node, option.name)
           case None => Throws
           case Some(child) => Invoke(child, COMMAND_HOOK, ctx, run, COMMAND_UNDEFINED))
    else
      var sub := if option.kind == SUBCOMMAND_GROUP then FirstSubcommand(option.options) else None;
      if sub.Some? then
        Some(match Walk(node, [option.name, sub.value.name])
             case None => Throws
             case Some(leaf) => Invoke(leaf, COMMAND_HOOK, ctx, run, COMMAND_UNDEFINED))
      else if Truthy(OptAccess(node, COMMAND_HOOK)) then
        Some(Invoke(node, COMMAND_HOOK, ctx, run, COMMAND_UNDEFINED))
      else None
  }

  /** `for (const option of interaction.data.options)`: the first deciding option returns. */
  function ChatInputLoop(node: Val, options: seq<DataOption>, ctx: Context, run: Runner): (r: Option<Outcome>)
    ensures r.None? <==> forall i :: 0 <= i < |options| ==> !Decides(node, options[i])
    ensures r.Some? ==> r.value != Pong && (r.value.Respond? ==> r.value.reply != Nullish)
    decreases |options|
  {
    if |options| == 0 then None
    else
      assert forall i :: 1 <= i < |options| ==> options[i] == options[1..][i - 1];
      var here := ChatInputStep(node, options[0], ctx, run);
      if here.Some? then here else ChatInputLoop(node, options[1..], ctx, run)
  }

  /** A chat-input command: without options only the command node answers; with options the loop decides. */
  function ChatInput(tree: Val, interaction: Interaction, run: Runner): (o: Outcome)
    requires tree.Obj? && interaction.ApplicationCommand?
    ensures o != Pong && (o.Respond? ==> o.reply != Nullish)
  {
    var data := interaction.data;
    var node := Get(tree, data.name);
    var ctx := CommandContext(interaction, node);
    if data.options.None? then Invoke(node, COMMAND_HOOK, ctx, run, COMMAND_UNDEFINED)
    else match ChatInputLoop(node, data.options.value, ctx, run)
      case Some(o) => o
      case None => UnknownCommand(None)
  }

  /** The path a recorded command name routes to: `name.split(' ', 3)`. */
  function PathOf(name: string): (path: seq<string>)
    ensures 1 <= |path| <= 3
    ensures path <= Text.Split(name, ' ')
    ensures Text.Count(name, ' ') < 3 ==> path == Text.Split(name, ' ')
    ensures Text.Count(name, ' ') >= 3 ==> |path| == 3
  {
    Text.SplitLimit(name, ' ', 3)
  }

  /**
   * Routing through `interaction_metadata.name`: an absent or empty name is
   * its own fallback; otherwise the tree is walked along the name's path and
   * `hook` is invoked at the node reached.
   */
  function RouteByName(tree: Val, name: Option<string>, hook: string, ctx: Context, run: Runner, missing: string): (o: Outcome)
    ensures name.None? || name.value == "" ==> o == Fallback(NAME_UNDEFINED)
    ensures o.Throws? && !(name.None? || name.value == "") ==> Walk(tree, PathOf(name.value)).None? || Walk(tree, PathOf(name.value)).value.Obj?
  {
    if name.None? || name.value == "" then UnknownCommand(Some(NAME_UNDEFINED))
    else match Walk(tree, PathOf(name.value))
      case None => Throws
      case Some(node) => Invoke(node, hook, ctx, run, missing)
  }

  /** The outcome of the modal broadcast over the whole tree. */
  function BroadcastModal(tree: Val, ctx: Context, run: Runner): (o: Outcome)
    requires tree.Obj?
    ensures o.Respond? ==> o.reply.Value?
    ensures o.Fallback? ==> o.content == MODAL_UNDEFINED
    ensures o != Pong
  {
    match Sweep(tree, ForInKeys(tree), 1, ctx, run)
    case Some(o) => o
    case None => UnknownCommand(Some(MODAL_UNDEFINED))
  }

  /** The dispatch closure over the compiled tree `tree`. */
  function Dispatch(tree: Val, interaction: Interaction, run: Runner): (o: Outcome)
    requires tree.Obj?
    ensures interaction.Ping? <==> o == Pong
    ensures interaction.Autocomplete? ==> o == Fallback(AUTOCOMPLETE_UNDEFINED)
    ensures interaction.Unrecognized? ==> o == Fallback(DEFAULT_FALLBACK)
    ensures interaction.MessageComponent? && !NamesCommand(interaction.metadata) ==> o == Fallback(COMPONENT_UNDEFINED)
    ensures o.Respond? ==> o.reply != Nullish
  {
    match interaction
    case Ping => Pong
    case ApplicationCommand(data) =>
      if data.commandType == CHAT_INPUT then ChatInput(tree, interaction, run)
      else if data.commandType == USER || data.commandType == MESSAGE then
        var node := Get(tree, data.name);
        Invoke(node, COMMAND_HOOK, ContextMenuContext(node), run, COMMAND_UNDEFINED)
      else UnknownCommand(None)
    case MessageComponent(metadata) =>
      if NamesCommand(metadata) then
        RouteByName(tree, metadata.value.name, COMPONENT_HOOK, ComponentContext, run, COMPONENT_UNDEFINED)
      else UnknownCommand(Some(COMPONENT_UNDEFINED))
    case Autocomplete => UnknownCommand(Some(AUTOCOMPLETE_UNDEFINED))
    case ModalSubmit(modal, metadata) =>
      if NamesCommand(metadata) then
        RouteByName(tree, metadata.value.name, MODAL_HOOK, ModalContext(modal), run, MODAL_UNDEFINED)
      else BroadcastModal(tree, ModalContext(modal), run)
    case Unrecognized(_) => UnknownCommand(None)
  }
}
