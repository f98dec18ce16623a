# Scripted chat responder — Dafny model

This project models the behaviour of the chat widget on a single-page demo site
(`src/app/page.tsx`). The page is a React component. Its only logic is:

- **The responder** `buildAssistantReply`. It lower-cases the user's text and
  turns `?`, `!`, `.` and `,` into spaces. It then scans a fixed table of four
  phrase rules in order. It returns the canned response of the first rule
  that has a trigger phrase occurring as a plain substring. When no rule
  fires, it answers with a "tell me more" prompt if the lower-cased input is
  shorter than four characters, and with a fixed generic reply otherwise.
- **The conversation controller**. The page keeps two pieces of state: the
  message log (`messages`) and the input draft (`draft`). Submitting does
  nothing for a blank draft. Otherwise it appends the trimmed draft as a
  user message and the responder's reply to the *untrimmed* draft as an
  assistant message, then clears the draft. The quick-prompt buttons and the
  input's change handler overwrite the draft.

Layout:

- `text.dfy` (module `Text`) holds the JavaScript string operations the
  responder relies on, written out on `string`:
  - `toLowerCase` is `ToLower`, built on the character map `Lower`.
  - `replace(/[?!.,]/g, " ")` is `Normalize`.
  - `includes` is `Includes`.
  - `trim` is `Trim`.
  - `length` is `CodeUnits`, which counts UTF-16 code units.
  Each comes with a reference definition or a characterisation lemma.
- `responder.dfy` (module `Responder`) holds the rule table, the scan
  (`AnyTrigger`, `FirstMatch`) and `Reply` (`buildAssistantReply`). It also
  holds the lemmas that characterise every reply.
- `conversation.dfy` (module `Chat`) holds the `Message` datatype and the
  class `Conversation`, whose fields are `messages`, `draft` and a message-id
  counter `nextId`. Its methods are `Submit` (`handleSubmit`), `SelectPrompt`
  and `ChangeDraft`, and its invariant is `Valid()`. Every reachable log
  starts with the seed assistant message with id 0. The senders then
  alternate and the log ends with an assistant message, so after the seed it
  is user/assistant pairs. Ids strictly increase, and every user text is
  trimmed and not empty.

Modelling decisions:

- The page derives message ids from `Date.now()` (the user's) and
  `Date.now() + 1` (the assistant's). The model uses a counter instead: the
  user message gets `nextId`, the assistant message `nextId + 1`, and the
  counter moves on by two.
- `Lower` is concrete for ASCII `A`–`Z`, for the Cyrillic capitals
  U+0410–U+042F, for U+0400–U+040F (which hold the Ukrainian `Є`, `І` and
  `Ї`) and for `Ґ`. Every other character is its own lower case. Lower-casing
  is therefore modelled as length-preserving, character by character.
- `IsWhiteSpace` is the exact set of characters that ECMAScript's `trim`
  removes: the WhiteSpace and LineTerminator code points.
- The fallback length test (line 56) is `input.length`, where `input` is the
  *lower-cased* string, not `rawInput`, and the model follows the code.
  Because `Lower` preserves length, the two agree in the model
  (`ToLowerKeepsCodeUnits`), so the fallback lemmas state the test on the raw
  input.
- JavaScript's `length` counts UTF-16 code units, so a character outside the
  Basic Multilingual Plane counts twice. `CodeUnits` models this. A one-emoji
  input has length 2, and two emoji count as 4 and get the generic reply.
- The reply is computed on the untrimmed draft, while the log shows the
  trimmed text. So `"  ок"` gets the generic reply (`MidLengthInputGetsGeneric`)
  and `"ок"` gets the short-input prompt (`ShortInputAsksForMore`), although
  both are logged as `ок`.

## Model

| member | source | states |
|---|---|---|
| `Text.ToLower` | src/app/page.tsx:25 | lower-casing keeps the length and lower-cases each character in place |
| `Text.Normalize` | src/app/page.tsx:26 | normalisation keeps the length, turns each of `?!.,` into a space and leaves every other character unchanged |
| `Text.IncludesIffOccurs` | src/app/page.tsx:51 | the left-to-right `includes` scan is true exactly when the phrase occurs at some index of the text |
| `Text.TrimSpec` | src/app/page.tsx:87-94 | `trim` returns the slice that starts after the leading white space; only white space lies outside it; it is empty exactly when the draft is all white space, and otherwise starts and ends with a non-space |
| `Text.TrimIdempotent` | src/app/page.tsx:94 | trimming a non-blank draft gives a trimmed string, a trimmed string is its own trim, and trimming twice equals trimming once |
| `Text.CodeUnits` | src/app/page.tsx:56 | the JavaScript length lies between the character count and twice it, and equals the character count exactly when every character is in the Basic Multilingual Plane |
| `Text.ToLowerKeepsCodeUnits` | src/app/page.tsx:25-56 | lower-casing never changes the length tested at line 56 |
| `Responder.AnyTriggerIffSomeOccurs` | src/app/page.tsx:51 | `match.some(includes)` holds exactly when some trigger of the rule is a substring of the normalised input |
| `Responder.FirstMatchIsFirstFiring` | src/app/page.tsx:50-54 | the table scan stops at a rule that fires with no earlier rule firing, and finds nothing exactly when no rule fires |
| `Responder.Reply` | src/app/page.tsx:24-64 | the responder is total and always answers one of the six fixed replies |
| `Responder.RepliesDistinct` | src/app/page.tsx:30-63 | the four rule responses and the two fallbacks are pairwise different |
| `Responder.ReplyIsRuleResponse` | src/app/page.tsx:27-54 | rule i's response is the reply if and only if rule i fires on the normalised input and no earlier rule does |
| `Responder.NoRuleFires` | src/app/page.tsx:50-63 | no rule fires exactly when the reply is one of the two fallbacks, and then the lower-cased input's length chooses which |
| `Responder.ReplyIsAskMore` | src/app/page.tsx:56-58 | the short-input prompt is the reply if and only if no rule fires and the input is shorter than four code units |
| `Responder.ReplyIsGeneric` | src/app/page.tsx:60-63 | the generic reply is given if and only if no rule fires and the input has at least four code units, and it is the same string for all such inputs |
| `Responder.PrepareWindow` | src/app/page.tsx:25-26 | lower-casing and normalising commute with taking a window of the input |
| `Responder.TriggerInWindowFires` | src/app/page.tsx:25-52 | a rule fires when some window of the raw input becomes one of its triggers after lower-casing and punctuation replacement |
| `Responder.GreetingAnyCase` | src/app/page.tsx:25-52 | any input holding "привіт" in any letter case, with any surrounding punctuation, gets the greeting |
| `Responder.EarlierRuleWins` | src/app/page.tsx:50-54 | the rules are tried in table order: once a rule fires, no later rule supplies the reply, whether or not that later rule fires too |
| `Responder.GreetingBeforeSkills` | src/app/page.tsx:27-54 | an input holding "привіт" in any case and a window that prepares to "що ти вмієш" (such as "привіт, що ти вмієш") fires the skills rule yet gets the greeting |
| `Responder.TooShortForAnyTrigger` | src/app/page.tsx:27-51 | an input of fewer than six characters fires no rule |
| `Responder.ShortInputAsksForMore` | src/app/page.tsx:50-58 | every input shorter than four code units, the empty input included, gets the short-input prompt |
| `Responder.MidLengthInputGetsGeneric` | src/app/page.tsx:50-63 | an input of fewer than six characters and at least four code units gets the generic reply |
| `Chat.AppendExchangeKeepsLog` | src/app/page.tsx:91-103 | appending a trimmed user message and then an assistant message with the next two ids keeps the log well formed |
| `Chat.SenderParity` | src/app/page.tsx:67-103 | in an alternating log, odd positions hold user messages and even positions assistant messages |
| `Chat.SendersInPairs` | src/app/page.tsx:67-103 | an alternating log has odd length: the seed, then user/assistant pairs |
| `Chat.InitialDraftNotBlank` | src/app/page.tsx:74 | the initial draft "Привіт, ти хто?" is not blank, so submitting it appends an exchange |
| `Chat.InitialDraftGetsGreeting` | src/app/page.tsx:74 | the initial draft is answered with the greeting |
| `Chat.Conversation.constructor` | src/app/page.tsx:67-74 | the initial state is exactly the seed assistant message with id 0 and the draft "Привіт, ти хто?" |
| `Chat.Conversation.Submit` | src/app/page.tsx:85-105 | a blank draft leaves log, draft and counter unchanged. Otherwise the old log stays as a prefix, and exactly two messages follow: the user's with the trimmed draft and the assistant's with the reply to the untrimmed draft and the next id. The draft becomes empty and the log stays well formed |
| `Chat.Conversation.AppendExchange` | src/app/page.tsx:103 | the updater appends the user message and the assistant message, with consecutive ids, at the end of the log and keeps it well formed |
| `Chat.Conversation.SelectPrompt` | src/app/page.tsx:167 | a quick-prompt button sets the draft to exactly that prompt and leaves the log alone |
| `Chat.Conversation.ChangeDraft` | src/app/page.tsx:206 | editing the input sets the draft to exactly the new value and leaves the log alone |

## Left out

- Rendering, styling, layout and scrolling (src/app/page.tsx:107-223) are left out: they are presentation with no behaviour.
- The static lists `HIGHLIGHTED_KEYWORDS` and `stats` are left out because they are display data. `quickPrompts` appears only as the literal strings `SelectPrompt` can put in the draft.
- `Date.now()` is replaced by the counter `nextId`. The model therefore does not capture what a wall clock could do: two submissions within the same millisecond can give colliding ids, and a clock set back can make ids decrease.
- `Lower`: full Unicode case mapping is left out. Characters outside ASCII and the Cyrillic ranges above are their own lower case, including Latin-1 capitals such as `À`. Mappings that change length, such as `İ` becoming two characters, are not modelled.
- Strings are sequences of Unicode scalar values, so lone UTF-16 surrogates, which a JavaScript string can hold, are not modelled.
- React plumbing is left out: hooks, re-rendering and `preventDefault`. The two state slots are class fields, updated synchronously. The functional `setMessages` updater at line 103 is modelled, by the method `AppendExchange`; its advance of `nextId` by two stands in for the two `Date.now()` calls at lines 92 and 98.
