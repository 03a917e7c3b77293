/**
 * The interaction envelopes the router receives, the contexts it hands to
 * handlers, and the outcomes it produces.
 */
module Interactions {
  import opened Wrappers
  import opened JsValue

  /** `InteractionType.ApplicationCommand`, the metadata kind that names a command. */
  const APPLICATION_COMMAND := 2

  /** `ApplicationCommandType` codes. */
  const CHAT_INPUT := 1
  const USER := 2
  const MESSAGE := 3

  /** `ApplicationCommandOptionType` codes for the two nesting kinds. */
  const SUBCOMMAND := 1
  const SUBCOMMAND_GROUP := 2

  /** Fallback texts, one per routing miss. */
  const DEFAULT_FALLBACK := "Unknown command"
  const COMMAND_UNDEFINED := "command handler is undefined"
  const NAME_UNDEFINED := "Message Component interaction_metadata.name is undefined"
  const COMPONENT_UNDEFINED := "messageComponent handler is undefined"
  const AUTOCOMPLETE_UNDEFINED := "commandAutocomplete handler is undefined"
  const MODAL_UNDEFINED := "modalSubmit handler is undefined"

  /** Hook property names. */
  const COMMAND_HOOK := "command"
  const COMPONENT_HOOK := "messageComponent"
  const MODAL_HOOK := "modalSubmit"

  /** A resolved option of a chat-input interaction: option-type code, name, nested options. */
  datatype DataOption = DataOption(kind: int, name: string, options: seq<DataOption>)

  /** `interaction.data` of an application command; `options` absent is distinct from `[]`. */
  datatype CommandData = CommandData(commandType: int, name: string, options: Option<seq<DataOption>>)

  /** `interaction.message?.interaction_metadata`: its interaction kind and the recorded command name. */
  datatype Metadata = Metadata(kind: int, name: Option<string>)

  /** `interaction.data` of a modal submission, opaque to the router. */
  datatype ModalData = ModalData(customId: string)

  /** The decoded interaction, by its `type`. */
  datatype Interaction =
    | Ping
    | ApplicationCommand(data: CommandData)
    | MessageComponent(metadata: Option<Metadata>)
    | Autocomplete
    | ModalSubmit(modal: ModalData, metadata: Option<Metadata>)
    | Unrecognized(typeCode: int)

  /** The context object a handler receives. */
  datatype Context =
    | CommandContext(interaction: Interaction, node: Val)
    | ContextMenuContext(node: Val)
    | ComponentContext
    | ModalContext(modal: ModalData)

  /** Calling a handler function on a context. */
  type Runner = (HandlerId, Context) -> Reply

  /**
   * What dispatch produces: the pong envelope, a handler's non-nullish reply,
   * the ephemeral `unknownCommand` message with its text, or a TypeError.
   */
  datatype Outcome = Pong | Respond(reply: Reply) | Fallback(content: string) | Throws

  /** `unknownCommand(text)`: the ephemeral message, with the default text when none is given. */
  function UnknownCommand(text: Option<string>): (o: Outcome)
    ensures o.Fallback?
    ensures text.Some? ==> o.content == text.value
    ensures text.None? ==> o.content == DEFAULT_FALLBACK
  {
    Fallback(text.GetOr(DEFAULT_FALLBACK))
  }

  /** `metadata?.type === InteractionType.ApplicationCommand`. */
  predicate NamesCommand(metadata: Option<Metadata>) {
    metadata.Some? && metadata.value.kind == APPLICATION_COMMAND
  }
}
