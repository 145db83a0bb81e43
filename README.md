# Chat item reactions, modelled in Dafny

A chat message in this front end is drawn by a chat-item component. Each item holds a list of
emoji reactions, which starts empty. Each entry is an emoji and the ordered list of the members
who reacted with it. The item shows one pill per entry: the emoji and its count. Choosing an
emoji in the picker, or clicking a pill, toggles the current member's reaction with that emoji:

- an emoji without an entry gets a new entry at the end of the list;
- an absent member is appended to the entry's users;
- a present member is removed from them;
- an entry left without users is dropped.

The component also lays out the message text as one line per piece between line feeds.

The project has five modules:

- `Primitives` (`primitives.dfy`): the JavaScript built-ins the component uses, over sequences.
  These are `indexOf`, `splice(i, 1)` and their combination.
- `Reactions` (`reactions.dfy`): the `Reaction` entry and the lookups `Emojis`, `FindIndex`,
  `Users`, `Count` and `Reacted`. It also holds the toggle as a pure function of the old list,
  `Toggled`, and the invariant `WellFormed`. That invariant says every entry has users, no two
  entries share an emoji, and no member occurs twice in one entry.
- `ReactionProperties` (`reaction_properties.dfy`): what the toggle guarantees, as lemmas
  about `Toggled`.
- `ChatItem` (`chat_item.dfy`): the component's state as a class. Its `reactions` field is
  reassigned by `Toggle`, which takes the same steps as the source. `Toggle` is proved equal to
  `Toggled` and to keep `WellFormed`. The pills come from `Pills`.
- `MessageContent` (`message_content.dfy`): `split("\n")`, its inverse `join`, and the keyed
  lines the component renders.

The acting member is fixed per item (`ReactionState.member`, the current member's id). The toggle
has no error path in the source. `ReactionState.Toggle` requires only the class invariant.
`ReactionState.ClickReaction` also needs the clicked pill to exist, which rendering guarantees.
`Primitives.RemoveAt` takes an index inside the sequence, as every `splice` call in the source
does. Some lemmas assume the invariant, or part of it, that every reachable list keeps.

## Model

| member | source | states |
|---|---|---|
| Primitives.IndexOf | components/chat/chat-item.tsx:37 | `indexOf`: -1 exactly when the value is absent; otherwise a position holding it with no earlier occurrence |
| Primitives.RemoveAt | components/chat/chat-item.tsx:41 | `splice(i, 1)`: one element shorter, elements before `i` kept, later ones shifted down by one |
| Primitives.RemoveFirst | components/chat/chat-item.tsx:37-41 | removing a present member makes the users one shorter; an absent member leaves the users unchanged |
| Primitives.RemoveFirstMultiset | components/chat/chat-item.tsx:37-41 | removing a present member takes exactly one copy of it out of the users, as a multiset |
| Reactions.Toggled | components/chat/chat-item.tsx:31-60 | the toggle as a pure function of the old list: the list changes length by at most one; what else it guarantees is stated by the `ReactionProperties` lemmas |
| Reactions.Count | components/chat/chat-item.tsx:108 | the pill count `users.length` of an emoji; a positive count means the emoji has an entry |
| Reactions.FindIndex | components/chat/chat-item.tsx:32 | `findIndex` on the emoji: -1 exactly when no entry has the emoji; otherwise an entry with that emoji and none earlier |
| ReactionProperties.ToggleAppendsEntry | components/chat/chat-item.tsx:53-58 | with no entry for the emoji, the result is the old list with `{emoji, [member]}` appended at the end |
| ReactionProperties.ToggleExistingEntry | components/chat/chat-item.tsx:34-50 | at the first entry for the emoji: an absent member is appended to its users; a present one loses its first occurrence; a sole reactor's entry is removed with the rest in order; every other entry is unchanged |
| ReactionProperties.ToggleEmojis | components/chat/chat-item.tsx:44-46 | pill order: a new emoji goes last; removing the last reactor removes that emoji's pill and keeps the others in order; otherwise emojis and order are unchanged |
| ReactionProperties.ToggleNonEmptyEntries | components/chat/chat-item.tsx:44-46 | no entry is ever left with an empty users list |
| ReactionProperties.ToggleUniqueEmojis | components/chat/chat-item.tsx:32 | no emoji ever gets a second entry |
| ReactionProperties.ToggleUniqueUsers | components/chat/chat-item.tsx:37-49 | the `indexOf` guard keeps every entry's users free of duplicates |
| ReactionProperties.ToggleWellFormed | components/chat/chat-item.tsx:31-60 | the three invariants together are preserved by every toggle |
| ReactionProperties.UsersAt | components/chat/chat-item.tsx:32 | with no emoji used twice, the lookup of an entry's own emoji finds that entry and its users |
| ReactionProperties.HasPill | components/chat/chat-item.tsx:101-108 | while no entry is empty, an emoji has a pill exactly when some member reacted with it |
| ReactionProperties.ToggleUsers | components/chat/chat-item.tsx:37-50 | the toggled emoji's reactors gain the member at the end or lose its first occurrence; every other emoji's reactors are unchanged |
| ReactionProperties.ToggleCounts | components/chat/chat-item.tsx:41-58 | the toggled emoji's count goes down by one if the member had reacted, else up by one; other counts are unchanged; the number of pills changes by at most one |
| ReactionProperties.ToggleFlipsReacted | components/chat/chat-item.tsx:37-50 | in a well-formed list the toggle flips whether the member reacted with the emoji and no other (emoji, member) pair |
| ReactionProperties.ToggleTwiceRestores | components/chat/chat-item.tsx:31-60 | if the member has not reacted with the emoji, toggling it twice gives back exactly the same list |
| ReactionProperties.ToggleTwiceRestoresNew | components/chat/chat-item.tsx:44-58 | reacting with an emoji that has no pill and withdrawing gives back exactly the same list |
| ReactionProperties.ToggleTwiceRestoresExisting | components/chat/chat-item.tsx:37-49 | joining an existing pill and withdrawing gives back exactly the same list |
| ReactionProperties.ToggleTwiceReactedUsers | components/chat/chat-item.tsx:37-49 | withdrawing and re-reacting leaves the emoji's reactors as before with the member moved to the end |
| ReactionProperties.ToggleTwiceSameUsers | components/chat/chat-item.tsx:31-60 | from any well-formed list, two toggles leave the toggled emoji's reactors the same as a multiset |
| ReactionProperties.UsersNoDuplicates | components/chat/chat-item.tsx:49 | in a list with no duplicate members per entry, the reactors of any emoji are distinct |
| ReactionProperties.ToggleTwiceKeepsReactors | components/chat/chat-item.tsx:31-60 | from any well-formed list, two toggles leave every emoji's reactors the same as a multiset |
| ReactionProperties.ToggleTwiceSoleReactor | components/chat/chat-item.tsx:44-46 | a sole reactor toggling twice moves the pill to the end of the list |
| ReactionProperties.ToggleTwiceSharedPill | components/chat/chat-item.tsx:41-49 | a reactor sharing the pill toggling twice leaves the pill order unchanged |
| ReactionProperties.ToggleTwiceKeepsPills | components/chat/chat-item.tsx:31-60 | from any well-formed list, two toggles give back the same pills as a multiset |
| ReactionProperties.ToggleTwiceMovesMember | components/chat/chat-item.tsx:41-49 | example: un-reacting and re-reacting moves the member to the end of the users |
| ReactionProperties.ToggleTwiceMovesEntry | components/chat/chat-item.tsx:44-58 | example: a sole reactor's pill is dropped and comes back at the end of the list |
| ReactionProperties.ClickNeverAddsEntry | components/chat/chat-item.tsx:101-105 | clicking a pill toggles that pill's own emoji: the list does not grow and gains no new emoji |
| ReactionProperties.ToggleScenarioOneEmoji | components/chat/chat-item.tsx:31-60 | example session: u1 and u2 react with one emoji, then withdraw in turn; the pill goes with the last reactor |
| ReactionProperties.ToggleScenarioTwoEmojis | components/chat/chat-item.tsx:53-58 | example: a second emoji's pill is placed after the first |
| ChatItem.Pills | components/chat/chat-item.tsx:101-108 | one pill per entry, showing the emojis in list order; `PillsShowCounts` states the counts |
| ChatItem.PillsShowCounts | components/chat/chat-item.tsx:101-108 | in a well-formed list, each pill shows its emoji in list order and the positive number of members who reacted with it |
| ChatItem.ReactionState.constructor | components/chat/chat-item.tsx:27 | a newly rendered item has no reactions, which satisfies the invariant |
| ChatItem.ReactionState.Toggle | components/chat/chat-item.tsx:31-60 | the new list equals `Toggled` of the old one and keeps the invariant; the member's reaction flips; the count moves by one; other emojis' reactors are unchanged |
| ChatItem.ReactionState.ClickReaction | components/chat/chat-item.tsx:101-105 | a pill click toggles that pill's emoji; the list does not grow and gains no emoji |
| MessageContent.Split | components/chat/chat-item.tsx:64 | `split` yields at least one piece, and no piece contains the separator |
| MessageContent.SplitCount | components/chat/chat-item.tsx:64 | `split` yields exactly one more piece than there are separators in the text |
| MessageContent.JoinSplit | components/chat/chat-item.tsx:63-70 | joining the pieces of a split with the separator gives back the text |
| MessageContent.SplitJoin | components/chat/chat-item.tsx:63-70 | splitting the join of one or more separator-free pieces gives back the pieces |
| MessageContent.FormatMessageContent | components/chat/chat-item.tsx:63-70 | one line per line feed plus one; each line is keyed by its position and holds no line feed; the lines spell the message |

## Left out

- The shallow copy of the reaction list (`components/chat/chat-item.tsx:36`) still shares each
  entry's `users` array with the previous state. The in-place `splice` and `push` (lines 41 and
  49) therefore also change the previous state. The model uses value semantics: old list in,
  new list out. It does not model this aliasing or React's re-render scheduling.
- One might expect two toggles of the same (emoji, member) pair always to restore the list. The
  code does so only when the member had not reacted (`ToggleTwiceRestores`). In the other direction the
  member, or the whole pill, can move to the end. The model follows the code:
  `ToggleTwiceMovesMember` and `ToggleTwiceMovesEntry` are the examples, and
  `ToggleTwiceKeepsReactors` and `ToggleTwiceKeepsPills` state what does survive.
- Empty emoji or member strings are not rejected, because the code does not check them.
- `socketUrl` and `socketQuery` (`components/chat/chat-item.tsx:24-25`) are received and never
  used, so no reaction transport is modelled.
- The JSX rendering is left out: avatar, name, timestamp, the "(edited)" badge, the `<br />`
  after each line, and the emoji picker widget. The picker only delivers an emoji string to
  `Toggle`.
- JavaScript strings are UTF-16 code units, while Dafny strings are sequences of characters.
  The toggle only compares strings for equality and splits on a line feed, so nothing modelled
  depends on the encoding.
- `components/chat/chat-input.tsx` is form validation, URL building, an HTTP post, router
  refresh, textarea resizing and a modal trigger. All of these are wrappers over external
  libraries or browser APIs. Its Enter/Shift+Enter key check is event wiring.
- `components/providers/query-provider.tsx` only creates a query client and wraps its children.
