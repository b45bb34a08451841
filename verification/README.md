# Odd Shoes chat page — a Dafny model

This project models the logic of the Odd Shoes agency's chat page,
`app/page.tsx`. The page is a thin client over a chat hook. The hook owns
the messages and the request status. The page owns four rules:

- how a message's content parts become display text (`getMessageText`);
- when a request counts as in flight (`isLoading`);
- when typed input or a welcome-screen prompt is handed to the hook's
  `sendMessage` (`handleSubmit`, `handleStarterPrompt`, and the send
  button's `disabled` attribute);
- what the messages area shows: the welcome screen, or the message bubbles
  with or without the typing indicator.

Modules:

- `Text` (`text.dfy`): the whitespace set, `Trim` (the page's `input.trim()`),
  and `Concat` (the `join("")` that glues parts together).
- `Message` (`message.dfy`): `Part`, `Msg` and `Role`, `GetMessageText`, and
  an independent reference definition `RenderedText`.
- `ChatStatus` (`status.dfy`): the hook's status enum and `IsLoading`.
- `ChatPage` (`page.dfy`): the page state, with the input box, the status
  read from the hook, and the texts handed to `sendMessage` so far. It also
  holds the three handlers, the send button, user events and their runs,
  and the rendered view.

The hook's status and messages are inputs to the model. `sendMessage` is
modelled only as "append this text to the outbox". What it then does to the
message list and the status is implemented by the chat hook library, which
is not part of this model.

Three points about the code are easy to miss, and the model follows them:

- A submit or a starter click while a request is in flight is dropped, not
  queued, and the request already running is not cancelled: both handlers
  return early while loading (app/page.tsx:38 and :44).
  `ChatPage.LoadingRejectsEverything` proves that no event changes anything
  while a request is in flight.
- The page never names the hook's idle status (`ready`); only `submitted`
  and `streaming` matter (app/page.tsx:23). The model's `Ready` stands for it.
- The text filter tests both `type === "text"` and a truthy `text`
  (app/page.tsx:53). So parts of other types, parts with no text and parts
  with empty text all contribute nothing.

## Model

| member | source | states |
|---|---|---|
| Text.TrimStart | app/page.tsx:37 | the result is a suffix of the input; everything cut off is whitespace; the result does not start with whitespace |
| Text.TrimEnd | app/page.tsx:37 | the result is a prefix of the input; everything cut off is whitespace; the result does not end with whitespace |
| Text.Trim | app/page.tsx:37 | `trim()` yields a string with no whitespace at either end. It sits inside the input with only whitespace before and after it. It is empty exactly when the input is all whitespace |
| Text.TrimUnique | app/page.tsx:37 | any trimmed core wrapped in whitespace trims back to exactly that core, so the contract of `Trim` determines its result |
| Text.StripsToUnique | app/page.tsx:37 | two trimmed strings framed by whitespace in the same input are equal |
| Text.SpaceIsWhitespace | app/page.tsx:37 | `trim()` strips the space character |
| Text.VisibleAsciiNotWhitespace | app/page.tsx:37 | `trim()` never strips a visible ASCII character, `!` through `~` |
| Text.TrimOfTrimmed | app/page.tsx:37 | a string with no whitespace at either end is its own trim |
| Text.TrimIdempotent | app/page.tsx:37 | trimming a trimmed string changes nothing |
| Text.Concat | app/page.tsx:55 | `join("")` of a single string is that string, a join starts with its first string, and it is empty exactly when every joined string is empty; with `ConcatAppend` this fixes the join as the in-order concatenation |
| Text.ConcatAppend | app/page.tsx:55 | `join("")` of two lists appended equals the two joins appended |
| Message.JoinValue | app/page.tsx:54-55 | the value `join("")` writes for a part: an absent `text` is written as the empty string, and a part that passes the filter is written as its own non-empty text |
| Message.Texts | app/page.tsx:54 | `.map((part) => part.text)` keeps one entry per part, in order, and each part that passes the filter maps to its own non-empty text |
| Message.ShownParts | app/page.tsx:53 | the filter keeps only parts of type "text" with non-empty text. Every such part of the input is kept, and nothing else is added |
| Message.ShownPartsSubMultiset | app/page.tsx:53 | the filter never duplicates a part: each part occurs in the result at most as often as in the input |
| Message.ShownPartsAppend | app/page.tsx:53 | the filter preserves order: filtering an appended list appends the filtered halves |
| Message.ShownPartsFixed | app/page.tsx:53 | a list of parts that all pass the filter comes through unchanged |
| Message.GetMessageText | app/page.tsx:49-56 | the display text is empty exactly when no part passes the filter |
| Message.GetMessageTextSingle | app/page.tsx:52-55 | a single part renders as its text if it passes the filter, and as nothing otherwise |
| Message.GetMessageTextIsRenderedText | app/page.tsx:52-55 | `getMessageText` equals the reference definition: the in-order concatenation of the texts of exactly the parts with type "text" and non-empty text |
| Message.GetMessageTextAppend | app/page.tsx:52-55 | the display text distributes over appending part lists |
| Message.GetMessageTextIgnoresHidden | app/page.tsx:53-55 | dropping the parts that fail the filter leaves the display text unchanged |
| Message.HelloWorld | app/page.tsx:52-55 | text parts "Hel", "lo, ", "world" render as "Hello, world" |
| Message.HiddenAround | app/page.tsx:53-55 | three parts that fail the filter, placed around two arbitrary parts, add nothing: the text is the two parts' contributions |
| Message.HiddenPartsAddNothing | app/page.tsx:53-55 | for any texts a and b and any type other than "text": a part of that type, a text part without text and a text part with empty text add nothing, so the list renders as exactly a + b |
| ChatStatus.IsLoading | app/page.tsx:23 | loading holds exactly for the two in-flight statuses. It is false for ready and for error |
| ChatPage.HandleSubmit | app/page.tsx:35-41 | with all-whitespace input, or while loading, nothing is sent and the state (input included) is unchanged. Otherwise the input is cleared and exactly one message is sent. That message is non-empty, has no surrounding whitespace, and is the input with its surrounding whitespace stripped |
| ChatPage.SendEnabled | app/page.tsx:214 | the send button is enabled exactly when `handleSubmit` would send, i.e. exactly when it would change the state |
| ChatPage.HandleStarterPrompt | app/page.tsx:43-46 | a starter prompt is sent verbatim, without trimming, unless loading, when nothing is sent. The input box is never touched |
| ChatPage.EditInput | app/page.tsx:206-209 | typing never sends anything; while loading the disabled input keeps its value |
| ChatPage.Step | app/page.tsx:35-209 | a single user event (typing into the input at :207-209, submitting the form at :202, or clicking a starter button at :104-107) leaves the status alone and sends at most one message, keeping everything sent before |
| ChatPage.Run | app/page.tsx:35-209 | a run of n events leaves the status alone, keeps everything sent before, and sends at most n messages |
| ChatPage.LoadingRejectsEverything | app/page.tsx:35-209 | while a request is in flight, no sequence of typing (ignored because the input is disabled, :209), submitting (:38) and clicking (:44) changes the page. In particular, no second request is started |
| ChatPage.StarterPromptsSendable | app/page.tsx:10-15 | each of the four starter prompts is non-empty with no surrounding whitespace |
| ChatPage.RunSendsOnlySendable | app/page.tsx:35-46 | every message the page ever sends is non-empty and has no surrounding whitespace |
| ChatPage.StarterPromptLikeSubmit | app/page.tsx:43-46 | clicking a starter prompt sends the same text as typing that prompt and submitting it |
| ChatPage.StarterPromptNotTrimmed | app/page.tsx:37-45 | the starter handler does not trim: " hi " goes out as " hi " from it but as "hi" from submit |
| ChatPage.LastRole | app/page.tsx:165 | `messages[messages.length - 1]?.role` is absent exactly for an empty list, and otherwise is the newest message's role |
| ChatPage.BubbleOf | app/page.tsx:118-160 | a message's bubble is on the user side exactly for user messages, and shows the reference display text of its parts |
| ChatPage.Render | app/page.tsx:89-165 | the welcome screen with the four prompts shows exactly when there are no messages. Otherwise there is one bubble per message, in order. Each bubble is marked as user-side exactly for user messages and shows the reference display text |
| ChatPage.TypingIndicatorShown | app/page.tsx:164-165 | the typing indicator shows exactly when there are messages, a request is in flight, and the last message's role is not assistant |

## Left out

- The server route (app/api/chat/route.ts). It hands the history and a fixed system prompt to a hosted model through library calls and streams the reply back over HTTP. All of its work is network I/O and library code.
- The chat hook's internals: status transitions, appending streamed chunks to the assistant message, error retention and cancellation. The hook is library code, so status and messages are inputs here and `sendMessage` only records the text it is given.
- The project-planner page (app/project-planner/page.tsx). Its required fields are enforced by the browser through `required` attributes. Its only code is a record update and a flag set after logging.
- Rendering and effects: JSX layout, styling, Markdown rendering of assistant text, auto-scroll and input focus (app/page.tsx:26-33). The view models only which bubbles and indicator appear and what text each bubble carries.
- Text.Whitespace / Text.IsWhitespace: the list holds the code points of ECMAScript's WhiteSpace and LineTerminator productions, with the space separators as of current Unicode. It does not claim to follow future Unicode changes. Strings are sequences of Unicode scalar values, not UTF-16 code units, so lone surrogates are not modelled.
- ChatPage.Run: holds the hook's status fixed across the events. In the running page the hook changes the status between events, and that is not modelled.
- ChatPage.HandleSubmit: the `preventDefault` call on the form event and the `await` on `sendMessage` are not modelled. The handler is treated as one atomic step.
- ChatPage.Step: starter buttons exist only on the welcome screen (app/page.tsx:89-113). The event model does not tie `ClickStarter` to an empty message list, because the handler itself does not check it.
