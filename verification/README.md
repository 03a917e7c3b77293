# Discord interaction dispatch engine, modelled in Dafny

This project models the core of `src/interaction.ts` from the
`hono-discord-interaction` library. That core turns registered commands into a
handler tree and routes each incoming Discord interaction to one handler. It
has three pure parts:

- **Descriptor indexer** (`commandToAct`, module `Descriptor`). It turns a
  command descriptor's option list into a name-keyed index, three levels deep.
  `associateBy` is modelled as the last-wins assignment loop it is.
- **Handler-tree compiler** (`commandsInit`, modules `Compiler` and
  `CompilerProperties`). It walks each handler bundle in step with that index.
  - At command, group and subcommand depth, every factory function is replaced
    by its value on the matching index slice.
  - Object levels are merged with `??= {}`, and function slots are overwritten.
  - Anything else is skipped, including non-function leaves at subcommand depth.
  - Index reads below a missing entry throw, and compilation then fails.
- **Router** (the closure returned by `createHandler`, modules `Router`,
  `Broadcast` and `RouterProperties`). It is a state machine over the
  interaction type, with these cases:
  - ping;
  - chat-input resolution, where the first deciding option wins;
  - user and message context-menu commands;
  - component and modal routing through `interaction_metadata.name`, split on
    spaces into at most three segments;
  - the autocomplete stub;
  - the depth-first modal broadcast;
  - the `unknownCommand` fallbacks.

Supporting modules:

- `Assoc`: JavaScript objects as ordered key/value entries.
- `JsValue`: the values stored in the tree. A function is an object with a
  call target. Hooks are ordinary properties, so they share one namespace with
  child keys, as they do in JavaScript.
- `Text`: `String.prototype.split` with a limit, and `join`.
- `Interactions`: envelopes, contexts, outcomes and the source's constants.

Handlers and factories are parameters:

- `run: (HandlerId, Context) -> Reply` calls a handler. A reply is nullish,
  falsy or a response value.
- `call: (FactoryId, Act) -> Val` calls a factory.

`Dispatch` maps a compiled tree and an interaction to one of four outcomes:
`Pong`, `Respond(reply)`, `Fallback(text)` or `Throws`. `Fallback(text)` stands for the ephemeral
`ChannelMessageWithSource` message (type 4, flags 64) that `unknownCommand`
builds. `Throws` marks the places where the JavaScript raises a TypeError:

- a hook that is not a function on a node that exists;
- a read below an undefined node, in `obj[name][option.name]` or in the
  `keys.reduce` walk.

A missing path segment is not turned into a fallback. Only the last read on a
path is optional-chained (`?.`), so a read below an earlier missing segment
throws. The `ChatInputAbsentCommand`, `ChatInputSubcommand`, `ChatInputGroup`,
`ComponentRoutesByName` and `WalkThrowsIff` lemmas state exactly when dispatch
throws.

`commandsInit` does not check how a descriptor's options nest; that check
belongs to `defineCommand`, which is listed under "Left out". Compilation
accepts any descriptor and fails only when an index read throws
(`CommandsInit`, `WellKeyedResolvable`).

## Model

| member | source | states |
|---|---|---|
| `Interactions.UnknownCommand` | src/interaction.ts:25-33 | every routing miss is the ephemeral fallback message; its text is the one given, or 'Unknown command' when none is |
| `Descriptor.AssociateBy` | src/interaction.ts:41 | the name index has no repeated key, and its keys are exactly the option names |
| `Descriptor.AssociateByLast` | src/interaction.ts:41 | reading a name from the index yields the last option carrying that name |
| `Descriptor.Expand` | src/interaction.ts:43-61 | whatever an option becomes in the index, a nested index or the option object itself, it is never undefined, so reading below it never throws |
| `Descriptor.IndexOfLookup` | src/interaction.ts:41-57 | each option name reads its own option, expanded one level less per depth |
| `Descriptor.IndexOfAbsent` | src/interaction.ts:41-57 | a name carried by no option reads undefined from the index |
| `Descriptor.IndexOf` | src/interaction.ts:41-57 | the index built from an option list has distinct keys, and a name is a key iff some option carries it |
| `Descriptor.CommandToAct` | src/interaction.ts:35-65 | the command's own name is the only key of `cAct`; every other key reads undefined; `cAct[name]` is `{}` without options and the index of the top-level options with them |
| `Descriptor.CommandToActOption` | src/interaction.ts:41-50 | `cAct[name][option]` is the option expanded two more levels, so a group becomes the index of its subcommands |
| `Descriptor.CommandToActChild` | src/interaction.ts:46-57 | `cAct[name][option][child]` is the child expanded one more level |
| `Descriptor.ActAccess` | src/interaction.ts:78-94 | reading a slice of the index throws exactly when the parent slice is undefined |
| `Compiler.Step2` | src/interaction.ts:90-96 | at subcommand depth a function fails iff the parent slice `cAct[key][key2]` is missing, and otherwise its slot holds the factory's value on `cAct[key][key2][key3]`; every other key, and every non-function entry, leaves the level unchanged; no key is removed |
| `Compiler.InitLevel2` | src/interaction.ts:88-97 | the subcommand loop throws iff it holds a function and the parent slice is missing; keys keep their positions; only function keys change |
| `Compiler.Step1` | src/interaction.ts:82-97 | at group depth a function fails iff `cAct[key]` is missing, and otherwise its slot holds the factory's value on `cAct[key][key2]`; an object merges into `out[key][key2] ??= {}`: the node is an object, stays callable iff it was, keeps its keys, and keeps the value of every key the object assigns no function to; only that key changes |
| `Compiler.InitLevel1` | src/interaction.ts:80-99 | the group loop throws iff some slice it reads is missing; existing keys keep their positions; keys the bundle does not assign keep their values |
| `Compiler.Step0` | src/interaction.ts:74-99 | at command depth a function's slot holds the factory's value on `cAct[key]`; an object merges into `out[key] ??= {}`: the node is an object, stays callable iff it was, keeps its keys, and keeps the value of every key the object does not assign; only that key changes; it fails iff a read below `cAct[key]` throws |
| `Compiler.InitLevel0` | src/interaction.ts:74-100 | one bundle merged into the tree throws iff it reads a missing slice; keys outside the bundle keep their values and positions |
| `Compiler.InitCommand` | src/interaction.ts:70-100 | one registration, with its own `commandToAct` index, changes only the keys its bundle assigns |
| `Compiler.InitAll` | src/interaction.ts:70-101 | merging the registrations in order fails iff some registration reads a missing slice |
| `Compiler.CommandsInit` | src/interaction.ts:67-104 | the compiled tree is a plain object, and compilation fails exactly when some registration reads below a missing index entry |
| `CompilerProperties.Level0Final` | src/interaction.ts:74-100 | in a bundle, the final value at a key is what that key's own entry makes of the value it held before |
| `CompilerProperties.Level1Final` | src/interaction.ts:82-98 | the same at group depth |
| `CompilerProperties.Level2Factory` | src/interaction.ts:90-96 | a function at subcommand depth leaves its value on its slice in the slot |
| `CompilerProperties.FactoryAtCommand` | src/interaction.ts:76-79 | a command-depth function slot holds the factory's value on `cAct[key]`, whatever was there before |
| `CompilerProperties.MergeAtCommand` | src/interaction.ts:80-81 | an object entry merges into the existing node: it stays callable if it was, and keys the bundle does not assign keep their values and positions |
| `CompilerProperties.FactoryAtGroup` | src/interaction.ts:84-87 | a group-depth function slot holds the factory's value on `cAct[key][key2]` |
| `CompilerProperties.MergeAtGroup` | src/interaction.ts:88-89 | a group-depth object merges into the existing node and keeps every key it does not assign a function to, so non-function leaves at depth 3 are skipped |
| `CompilerProperties.InitAllSplit` | src/interaction.ts:70-101 | merging registrations in sequence can be split at any point |
| `CompilerProperties.InitAllUntouched` | src/interaction.ts:70-101 | registrations that do not mention a key leave it unchanged |
| `CompilerProperties.LaterUntouched` | src/interaction.ts:70-101 | later registrations that do not mention a key leave it as the earlier ones made it |
| `CompilerProperties.RegisteredFactory` | src/interaction.ts:67-104 | the last registration that assigns a command-level function slot decides its value in the compiled tree |
| `CompilerProperties.NestedSlot0` | src/interaction.ts:80-99 | an object at command depth leaves at its key the `??= {}` target, with its call target, holding the group-level merge of the object |
| `CompilerProperties.NestedSlot1` | src/interaction.ts:88-97 | the same one level down, with the subcommand-level merge |
| `CompilerProperties.RegisteredNode` | src/interaction.ts:67-104 | when no later registration touches a command key, its compiled node is the merge of the last registration's object into the node the earlier registrations left |
| `CompilerProperties.RegisteredGroupFactory` | src/interaction.ts:84-87 | a group-depth function of the last registration touching its command key leaves, at `tree[key][key2]`, its factory's value on `cAct[key][key2]` |
| `CompilerProperties.RegisteredSubcommandFactory` | src/interaction.ts:92-95 | a subcommand-depth function of the last registration touching its command key leaves, at `tree[key][key2][key3]`, its factory's value on `cAct[key][key2][key3]` |
| `CompilerProperties.DistinctCommandsIndependent` | src/interaction.ts:67-104 | two registrations under distinct names compile into independent entries, each holding its own factory's value |
| `CompilerProperties.DuplicateCommandLastWins` | src/interaction.ts:76-79 | registering the same name twice keeps only the later value; no error is raised |
| `CompilerProperties.IndexOfPresent` | src/interaction.ts:41-57 | every option name reads a present slice of its index |
| `CompilerProperties.WellKeyedResolvable` | src/interaction.ts:74-100 | a bundle keyed like its descriptor never reads below a missing slice, so it compiles |
| `JsValue.Access` | src/interaction.ts:124 | a plain property read, as in `obj[name][option.name]`, throws exactly when the value read from is undefined |
| `JsValue.OptAccess` | src/interaction.ts:119 | an optional-chained read `v?.[key]` never throws: it is undefined on undefined and a plain read otherwise |
| `JsValue.OrEmpty` | src/interaction.ts:81 | `out[key] ??= {}` always leaves an object and keeps an existing one |
| `JsValue.Walk` | src/interaction.ts:180 | `keys.reduce((acc, key) => acc[key], obj)`: no keys yields the tree itself, and a successful walk of one or more keys started at an object |
| `JsValue.WalkThrowsIff` | src/interaction.ts:180 | the reduce throws iff some proper prefix of the path resolves to undefined; otherwise it yields the node at the path |
| `Text.Split` | src/interaction.ts:166 | `split(' ')` yields at least one piece, and no piece contains the separator |
| `Text.SplitLimit` | src/interaction.ts:166 | `split(' ', 3)` keeps a prefix of the full split with at least one piece; with fewer separators than the limit it is the full split, otherwise it keeps exactly `limit` pieces |
| `Text.SplitLimitThree` | src/interaction.ts:166 | a name of three space-free segments followed by a space and any remainder splits into exactly those three segments |
| `Text.SplitCount` | src/interaction.ts:166 | a split has one more piece than the string has separators |
| `Text.JoinSplit` | src/interaction.ts:166 | joining the pieces of a split gives back the name |
| `Text.SplitJoin` | src/interaction.ts:166 | splitting a join of separator-free segments gives back the segments |
| `Text.JoinSplitLimitPrefix` | src/interaction.ts:166 | the segments kept by the limited split form a prefix of the name, so any fourth segment and later ones are dropped |
| `Router.Invoke` | src/interaction.ts:119 | `node?.hook(c) ?? unknownCommand(text)`: the result is the hook's reply iff the node has a callable hook whose reply is not nullish; it is the fallback with that text iff the node is undefined or the reply is nullish; it throws iff the node is defined and its hook is not callable |
| `Router.FirstSubcommand` | src/interaction.ts:129-136 | the inner loop picks the first subcommand among a group's options, or none when there is no subcommand |
| `Router.ChatInputStep` | src/interaction.ts:121-141 | one loop iteration returns iff its option is a subcommand, a group holding a subcommand, or the command node has a truthy `command` hook |
| `Router.ChatInputLoop` | src/interaction.ts:121-142 | the option loop falls through iff no option decides |
| `Router.ChatInput` | src/interaction.ts:115-144 | a chat-input dispatch never answers Pong and never passes on a nullish reply |
| `Router.PathOf` | src/interaction.ts:166 | a recorded name routes along one to three segments, a prefix of its full split: all of them below three spaces, exactly the first three otherwise |
| `Router.RouteByName` | src/interaction.ts:163-181 | an absent or empty name gives the 'interaction_metadata.name is undefined' fallback; a throw comes from the walk or from the node it reached |
| `Router.BroadcastModal` | src/interaction.ts:210-234 | the broadcast answers only with a truthy reply, a throw, or the 'modalSubmit handler is undefined' fallback |
| `Router.Dispatch` | src/interaction.ts:109-238 | Pong iff the interaction is a ping; autocomplete always gives its stub fallback; an unrecognised type gives 'Unknown command'; a component without command metadata gives its fallback; no nullish reply is passed on |
| `Broadcast.Attempt` | src/interaction.ts:212-214 | invoking a truthy `modalSubmit` throws iff the hook is not a function; it stops the walk with the reply iff the reply is truthy, and goes on iff the hook is a function with a falsy reply |
| `Broadcast.Sweep` | src/interaction.ts:210-232 | the nested loops stop only with a truthy reply or a throw |
| `Broadcast.Visit` | src/interaction.ts:211-231 | one loop body stops only with a truthy reply or a throw |
| `Broadcast.Under` | src/interaction.ts:216-229 | paths below a key are the child's paths with that key in front |
| `Broadcast.FirstResponderAppend` | src/interaction.ts:210-234 | trying two path lists in sequence: the second is reached only when the first gives no answer |
| `Broadcast.FirstResponderUnder` | src/interaction.ts:216-229 | trying the paths below a key is trying them from the child node |
| `Broadcast.SweepIsFirstResponder` | src/interaction.ts:210-232 | the three nested loops try exactly the reference nodes in depth-first insertion order and stop at the first truthy reply |
| `Broadcast.VisitIsFirstResponder` | src/interaction.ts:211-231 | one loop body agrees with the reference nodes below its key |
| `Broadcast.ModalNodesShape` | src/interaction.ts:210-232 | every visited path is one to three levels deep, starts at one of the loop's keys, follows `for ... in` keys at every level, and ends at the first node on it with a truthy `modalSubmit` |
| `Broadcast.NodesAtShape` | src/interaction.ts:211-231 | the same for the paths below one key |
| `Broadcast.ModalNodesComplete` | src/interaction.ts:210-232 | conversely, every path of that shape is visited |
| `Broadcast.NodesAtComplete` | src/interaction.ts:211-231 | the same for the paths below one key |
| `Broadcast.ModalNodesExactly` | src/interaction.ts:210-232 | the three loops visit a path iff it has that shape |
| `Broadcast.FirstHookAtResolve` | src/interaction.ts:212-229 | on such a path the node reached has a truthy `modalSubmit` and no proper prefix does |
| `RouterProperties.ChatInputWithoutOptions` | src/interaction.ts:118-119 | without options only `tree[name].command` can answer; a missing node or a nullish reply gives 'command handler is undefined'; a node without the hook throws |
| `RouterProperties.ChatInputEmptyOptions` | src/interaction.ts:118-142 | an empty options array counts as present: the loop runs zero times and 'Unknown command' answers |
| `RouterProperties.LoopFirstDecider` | src/interaction.ts:121-142 | the loop returns what the first deciding option's iteration returns |
| `RouterProperties.LoopIgnoresLaterOptions` | src/interaction.ts:121-142 | options after the deciding one are never examined |
| `RouterProperties.ChatInputFirstDecidingOption` | src/interaction.ts:114-142 | a chat-input dispatch with options is decided by the first deciding option in order |
| `RouterProperties.ChatInputNoDecidingOption` | src/interaction.ts:139-142 | if no option is a subcommand or a group with a subcommand, and there is no `command` hook, the default 'Unknown command' answers |
| `RouterProperties.ChatInputSubcommand` | src/interaction.ts:121-126 | a subcommand option preceded only by options that do not decide routes to `tree[name][sub].command`; reading below a missing command throws |
| `RouterProperties.ChatInputGroup` | src/interaction.ts:121-137 | a group option holding a subcommand, preceded only by options that do not decide, routes to `tree[name][group][sub].command`, where `sub` is the group's first subcommand; reading below a missing level throws |
| `RouterProperties.ChatInputAbsentCommand` | src/interaction.ts:118-142 | for a command missing from the tree: 'command handler is undefined' without options; a throw when a subcommand or group option decides; 'Unknown command' otherwise |
| `RouterProperties.FirstDecider` | src/interaction.ts:121-142 | if some option decides, the first one that does is found |
| `RouterProperties.ContextMenuAtDepthZero` | src/interaction.ts:146-154 | user and message commands resolve at `tree[name].command` whatever options they carry |
| `RouterProperties.PathOfJoin` | src/interaction.ts:166 | a name of one to three space-free segments splits back into exactly those segments |
| `RouterProperties.PathOfRecordedName` | src/interaction.ts:166 | a recorded name of one to three space-free segments, with any remainder after a third, routes along exactly those segments |
| `RouterProperties.ComponentRoutesByName` | src/interaction.ts:163-181 | metadata naming `"cmd group sub"`, possibly followed by further text, walks those segments and invokes `messageComponent` at the node reached; a missing intermediate segment throws |
| `RouterProperties.ModalRoutesByName` | src/interaction.ts:199-205 | the same for modal submissions, with `modalSubmit` |
| `RouterProperties.MetadataWithoutName` | src/interaction.ts:165 | an absent or empty recorded name gives the 'interaction_metadata.name is undefined' fallback, for components and modals alike |
| `RouterProperties.ModalBroadcast` | src/interaction.ts:192-234 | a modal without command metadata answers with the first truthy reply in the reference traversal order, or with 'modalSubmit handler is undefined' |
| `EndToEnd.GroupSubcommandDispatch` | src/interaction.ts:67-137 | a command with group `g` holding subcommand `s` compiles; its factory receives the subcommand's own option; dispatching `name g s` runs that handler and no other |

## Left out

- Request signature verification (`verifyRequestSignature`, `importKeyRaw`): it is cryptography, and `lib/ed25519.ts` is not part of this model.
- `discordInteraction` (src/interaction.ts:261-273): HTTP request and response I/O.
- `validateCommand` and `defineCommand` (src/interaction.ts:276-302): they wrap zod schemas in `schema.ts`, which is not part of this model. Descriptor validation, including rejection of invalid nesting, is therefore not modelled.
- The context classes in `context.ts` are not part of this model. Contexts are datatypes that carry their constructor arguments, and their constructors are assumed not to throw.
- `mod.ts` only re-exports.
- Router.Invoke: applies `??` to a handler's resolved reply, as if every handler were synchronous. For an `async` handler, the source applies `??` to the Promise. That Promise is never nullish, so the source passes on an undefined reply instead of the fallback.
- Handlers and factories are pure and total. A handler or factory that throws or rejects is not modelled. Handlers also do not see their `this` node.
- Compiler.CommandsInit: models the tree as values. JavaScript objects have identity, so a factory result shared between slots would be changed through both slots by later merges.
- Tree values are `undefined`, objects or functions. Primitive values are not modelled: strings or numbers returned by factories, and `null` handler-bundle entries (which `typeof` reports as 'object').
- A property read sees only own enumerable properties. It does not see prototype-chain or built-in function properties such as `name` or `length`.
- Descriptor.ActAccess: a read from a raw option object reads undefined. Its real fields (`name`, `type`, ...) are not modelled as properties.
- Object keys are assumed not to be integer-like, so `for ... in` follows insertion order. The compiler lemmas about single bundles assume that a bundle's keys are distinct, as an object literal's keys are.
- A group option's `options` array is always present, as the platform's type requires. The TypeError that iterating a missing array would raise is not modelled.
- Falsy handler replies that are not nullish (`false`, `0`, `''`) are one `Falsy` reply. `??` passes them on, and the broadcast skips them.
