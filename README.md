# Chat widget model

A Dafny model of the chat widget on the landing page of a small Next.js
studio site (`src/app/page.tsx`). The widget keeps two pieces of state:

- the conversation **history**, which starts with a greeting from the assistant;
- the pending **input** in the text box.

Three handlers change that state:

- **submit** trims the input and ignores it when it is blank. Otherwise it
  appends the user's turn and the assistant's reply to the history, then
  clears the input.
- **quick prompt** is used by the four prompt chips and the two hero
  buttons. It sets the input to the prompt's text.
- **change** is the text box's handler. It sets the input to what was typed.

The assistant's reply comes from a fixed table of four rules. Each rule pairs
a case-insensitive regex with a canned response. The table is searched in
order, the first rule whose regex matches wins, and a default reply is used
when no rule matches.

The project has three modules:

- `Text` (`text.dfy`) holds the string operations the widget relies on
  through JavaScript built-ins:
  - the case-insensitive substring test that the `/i` regexes perform;
  - `String.prototype.trim`, with the exact ECMAScript set of white-space
    and line-terminator characters.
- `Replies` (`replies.dfy`) holds the reply table and `generateAssistantReply`.
  The table is kept as two parallel columns: `Matchers[j]` lists the literal
  alternatives of rule `j`'s regex, and `Responses[j]` is its response.
- `Conversation` (`conversation.dfy`) holds the rest:
  - the `Message` record and the greeting;
  - the widget state as a value (`State`), with one pure function per
    handler (`Submitted`, `Step`, `Run` over a sequence of events);
  - the invariant that every reachable history satisfies (`WellFormed`);
  - a class `ChatWidget` whose `history` and `input` fields are updated in
    place by `Submit`, `QuickPrompt` and `Type`. Each method's postcondition
    ties the new state to the pure functions.

`WellFormed` is defined recursively: a history is either exactly the
greeting, or a well-formed history followed by one exchange. An exchange is
a user turn holding non-blank trimmed text, followed by the reply to exactly
that text.

`generateAssistantReply` accepts any string. Its only caller is the submit
handler, which passes non-blank trimmed text (`src/app/page.tsx:102-108`).
The model follows the code: `Reply` is total, and every property of it is
proved for all strings. That the submit handler only ever passes non-blank
trimmed text is proved separately, as part of `WellFormed`.

Where each part of `src/app/page.tsx` lives in the model:

| source | model |
|---|---|
| `Message` type (lines 5-8) | `Conversation.Role`, `Conversation.Message` |
| `quickPrompts` (lines 10-15) | `Conversation.QuickPrompts` |
| `responseLibrary` (lines 17-38) | `Replies.Matchers` (the regexes) and `Replies.Responses` |
| `defaultAssistantReply` (lines 40-41) | `Replies.DefaultReply` |
| `generateAssistantReply` (lines 43-49) | `Replies.Reply` |
| `responseLibrary.find` (line 44) | `Replies.FirstMatch` |
| `matcher.test(input)` (line 44) | `Replies.Matches`, over `Text.ContainsIgnoringCase` |
| `input.trim()` (line 102) | `Text.Trim`, `Text.TrimStart`, `Text.TrimEnd`, `Text.IsSpace` |
| `input` and `history` state (lines 52-59) | `Conversation.State`, `Conversation.Initial`, `Conversation.Greeting`, and the fields of `Conversation.ChatWidget` |
| `handleSubmit` (lines 100-111) | `Conversation.Submitted`, `Conversation.ChatWidget.Submit` |
| `handleQuickPrompt` (lines 113-115) | `Conversation.Step` on `QuickPrompt`, `Conversation.ChatWidget.QuickPrompt` |
| hero buttons (lines 132 and 139) | `Conversation.HeadlinePrompt`, `Conversation.OutlinePrompt` |
| the text box's `onChange` (line 171) | `Conversation.Step` on `Type`, `Conversation.ChatWidget.Type` |

## Model

| member | source | states |
|---|---|---|
| Text.ContainsIgnoringCase | src/app/page.tsx:44 | `matcher.test` for one literal alternative: a match needs the keyword to fit in the text, and an occurrence at the very start is found (`ContainsIffOccurs` gives the full characterisation) |
| Text.ContainsIffOccurs | src/app/page.tsx:44 | a literal regex with the `i` flag tests true exactly when the literal occurs at some position of the input, letters compared regardless of case |
| Text.ExactOccurrence | src/app/page.tsx:44 | an occurrence with the exact same characters is also a case-insensitive match |
| Text.MissingCharNotContained | src/app/page.tsx:44 | text that lacks, in either case, one letter of a keyword does not match that keyword |
| Text.ContainsIgnoresCase | src/app/page.tsx:19 | the `i` flag makes matching blind to case: two texts that differ only in letter case match the same literals |
| Text.Lower | src/app/page.tsx:44 | not an operation of the page: a device for stating the case-blindness of the `i` flag. Lower-casing keeps the length and lower-cases every character |
| Text.Upper | src/app/page.tsx:44 | not an operation of the page: a device for stating the case-blindness of the `i` flag. Upper-casing keeps the length and upper-cases every character |
| Text.CaseChangesAreSameIgnoringCase | src/app/page.tsx:44 | upper- and lower-casing a text changes only the case of its letters, so both are inputs the `i` flag cannot tell apart |
| Text.IsSpace | src/app/page.tsx:102 | the characters `trim` removes; every one of them is a single UTF-16 code unit (below U+10000) |
| Text.TrimStart | src/app/page.tsx:102 | cutting the leading white space never lengthens the text, and a blank text becomes "" |
| Text.TrimEnd | src/app/page.tsx:102 | cutting the trailing white space never lengthens the text, and a blank text becomes "" |
| Text.Trim | src/app/page.tsx:102 | `input.trim()` never lengthens the text, and a blank text becomes "" |
| Text.TrimStartSpec | src/app/page.tsx:102 | the result is a suffix of the input; everything removed is white space; the result does not start with white space |
| Text.TrimEndSpec | src/app/page.tsx:102 | the result is a prefix of the input; everything removed is white space; the result does not end with white space |
| Text.TrimIsInnerSlice | src/app/page.tsx:102 | `trim` returns a contiguous slice of its input; only white space is cut on either side; the result neither starts nor ends with white space |
| Text.TrimEmptyIffBlank | src/app/page.tsx:102-103 | the trimmed input is empty exactly when the input is blank (empty or only white space), which is what `if (!trimmed) return` rejects |
| Text.TrimIdempotent | src/app/page.tsx:102 | trimming an already trimmed text changes nothing |
| Replies.Matches | src/app/page.tsx:44 | `matcher.test(input)`: some alternative of the regex occurs in the input regardless of case; a matching alternative is never longer than the input |
| Replies.FirstMatch | src/app/page.tsx:44 | `responseLibrary.find`: a found position is a rule of the table whose matcher accepts the input, and when the first rule accepts, the first rule is found |
| Replies.Reply | src/app/page.tsx:43-49 | `generateAssistantReply`: the reply is always one of the four responses or the default |
| Replies.FirstMatchSpec | src/app/page.tsx:44 | `find` returns the lowest-index rule whose matcher accepts the input, no earlier rule accepts it, and there is no result exactly when no rule accepts it |
| Replies.RepliesDistinct | src/app/page.tsx:17-41 | there are as many responses as matchers, and the four responses and the default are pairwise different |
| Replies.ReplyIsCanned | src/app/page.tsx:43-49 | the reply is always one of the five fixed texts, so it is never empty |
| Replies.ReplyOfFirstMatchingRule | src/app/page.tsx:43-49 | when rule `i` matches and no earlier rule does, the reply is rule `i`'s response |
| Replies.EarlierRuleWins | src/app/page.tsx:44 | when two rules match, the later rule's response is never returned |
| Replies.ReplyDefaultIffNoMatch | src/app/page.tsx:40-49 | the default reply is returned if and only if no rule matches |
| Replies.FirstMatchIgnoresCase | src/app/page.tsx:44 | texts that differ only in letter case have the same first matching rule |
| Replies.ReplyIgnoresCase | src/app/page.tsx:43-49 | texts that differ only in letter case get the same reply |
| Replies.ReplyIgnoresCaseChange | src/app/page.tsx:43-49 | upper-casing or lower-casing the input does not change the reply |
| Replies.RoadmapQuestionMatchesTwoRules | src/app/page.tsx:13 | the quick prompt "How can I turn a vague idea into a roadmap?" matches both the planning rule and the idea rule |
| Replies.IdeaIntoRoadmapGetsPlanReply | src/app/page.tsx:13 | that prompt gets the planning response and not the idea response, because the planning rule comes first |
| Replies.LaunchPlanInAnyCase | src/app/page.tsx:19 | "LAUNCH plan" and "launch plan" both get the planning response |
| Replies.JokeLetters | src/app/page.tsx:44 | "tell me a joke" contains none of the letters p, r, u, i, c, s in either case |
| Replies.JokeLacksKeywords | src/app/page.tsx:19-34 | "tell me a joke" contains none of the table's keywords other than "team" |
| Replies.JokeLacksTeam | src/app/page.tsx:24 | "tell me a joke" does not contain "team", although it contains each of its letters |
| Replies.NoKeywordGetsDefaultReply | src/app/page.tsx:17-49 | input that contains none of the twelve keywords, in any case, gets the default reply |
| Replies.JokeGetsDefaultReply | src/app/page.tsx:40-49 | "tell me a joke" gets the default reply |
| Conversation.Submitted | src/app/page.tsx:100-111 | `handleSubmit` on the state as a value: the old history stays a prefix of the new one, and either nothing changes or the input is cleared |
| Conversation.Step | src/app/page.tsx:100-115 | one event (submit, a quick prompt, or typing in the text box at line 171): only a submit can change the history |
| Conversation.Run | src/app/page.tsx:100-115 | a sequence of events, first one first: the history never gets shorter |
| Conversation.WellFormed | src/app/page.tsx:52-59 | the invariant of every reachable history: the greeting followed by complete exchanges. A well-formed history is never empty and starts with the greeting |
| Conversation.GreetingNonEmpty | src/app/page.tsx:53-59 | the greeting turn has non-empty text |
| Conversation.WellFormedShape | src/app/page.tsx:53-59 | a well-formed history is non-empty, starts with the greeting and has odd length |
| Conversation.UserTurnsAtOddPositions | src/app/page.tsx:105-109 | in a well-formed history, user turns sit exactly at the odd positions |
| Conversation.UserTurnsAnswered | src/app/page.tsx:105-109 | every user turn holds non-blank trimmed text and is followed by the reply to that text |
| Conversation.RepliesFollowUserTurns | src/app/page.tsx:105-109 | every assistant turn after the greeting comes right after a user turn and is the reply to it |
| Conversation.ReplyTurnNonEmpty | src/app/page.tsx:108 | every assistant turn after the greeting has non-empty text |
| Conversation.TurnsNonEmpty | src/app/page.tsx:5-8 | no turn of a well-formed history has empty content |
| Conversation.InitialWellFormed | src/app/page.tsx:52-59 | the opening state is the greeting alone with an empty input, and it is well formed |
| Conversation.SubmitBlankIsNoOp | src/app/page.tsx:102-103 | submitting blank input leaves both the history and the input unchanged |
| Conversation.SubmitAppendsExchange | src/app/page.tsx:105-110 | submitting non-blank input appends exactly two turns, the trimmed input as the user's turn and then its reply. The old history stays a prefix and the input is cleared |
| Conversation.StepPreservesWellFormed | src/app/page.tsx:100-115 | submitting, clicking a prompt and typing all keep the history well formed |
| Conversation.RunExtendsHistory | src/app/page.tsx:105-109 | the history only grows: any sequence of events keeps the old history as a prefix |
| Conversation.RunPreservesWellFormed | src/app/page.tsx:100-115 | any sequence of events keeps a well-formed history well formed |
| Conversation.ReachableWellFormed | src/app/page.tsx:52-59 | every history reachable from the opening state is well formed, starts with the greeting and has odd length |
| Conversation.QuickPromptThenSend | src/app/page.tsx:113-115 | clicking a prompt with nothing to trim and then sending appends that prompt and its reply, and clears the input |
| Conversation.ChipThenSend | src/app/page.tsx:10-15 | none of the four prompt chips has anything to trim, so clicking one and then sending appends exactly that chip's text and its reply, and clears the input |
| Conversation.RoadmapChipGetsPlanReply | src/app/page.tsx:13 | the roadmap chip gets the planning response |
| Conversation.HeadlinePromptGetsPlanReply | src/app/page.tsx:132 | the first hero button's prompt has nothing to trim and gets the planning response |
| Conversation.OutlinePromptGetsPlanReply | src/app/page.tsx:139 | the second hero button's prompt has nothing to trim and gets the planning response |
| Conversation.HeroButtonThenSend | src/app/page.tsx:130-141 | clicking either hero button on the opening page and then sending gives the history [greeting, the prompt, the planning response] and an empty input |
| Conversation.ChatWidget.constructor | src/app/page.tsx:52-59 | the widget starts with the greeting alone and an empty input, which is well formed |
| Conversation.ChatWidget.Submit | src/app/page.tsx:100-111 | the new state is `Submitted` of the old one. Blank input changes nothing; otherwise the trimmed turn and its reply are appended and the input is cleared. A well-formed history stays well formed |
| Conversation.ChatWidget.QuickPrompt | src/app/page.tsx:113-115 | the input becomes the prompt, verbatim, and the history is unchanged |
| Conversation.ChatWidget.Type | src/app/page.tsx:171 | the input becomes the typed text and the history is unchanged |

## Left out

- `src/app/layout.tsx` and all rendering are not modelled. This includes the
  JSX, CSS class names, the memoised `features` and `timeline` arrays, and how the
  history is drawn. None of it changes the widget's state.
- React plumbing is left out: `useState` setters are modelled as plain
  assignments, and `useMemo` and `event.preventDefault()` are not modelled.
  The submit handler's history update (which appends two turns) and its input
  update happen in one render, so the model applies them as one step.
- The regexes are modelled as lists of literal alternatives rather than
  through a regex engine. This is exact for these four patterns, which use
  only `|` between plain words.
- Letter case is folded for ASCII only. Without the `u` flag, the `i` flag
  never folds a non-ASCII character onto an ASCII letter. Every keyword is
  ASCII, so this is exact for this table.
- Trim's white-space set follows ECMAScript: the Unicode space separators
  (category Zs) plus tab, vertical tab, form feed, byte order mark and the
  four line terminators. The model fixes that set as of current Unicode.
- Of the four prompt chips, only the roadmap chip's reply is worked out.
  The other three texts are in `QuickPrompts`, and `ChipThenSend` covers
  clicking any chip and sending it.
- Strings are sequences of Unicode scalar values, while JavaScript strings are
  sequences of UTF-16 code units, so a lone surrogate cannot be represented.
  This changes nothing here: every keyword is ASCII, and every character
  `trim` removes is a single code unit (`IsSpace`).
- Rendering `key`s, accessibility attributes and styling are not modelled.
