# Text-to-Game: the route handler and the chat state

Text-to-Game lets a user describe a browser game in a chat box. The page posts the
description and the earlier turns to `/api/generate-game`. That route sends the
conversation to a hosted language model. It then splits the reply into a description and
a single-file HTML program, and the page shows the program in a preview frame.

This project models the two pieces of logic in that loop:

- `GenerateGame` (route.dfy) is the `POST` handler as pure functions. It validates the
  `message` field and builds the turn list sent upstream. It also extracts the game code
  and description from the model's reply and forms the response. The model call is a
  parameter (`ModelCall`): either the content blocks it returns, or a throw.
- `Page` (page.dfy) is the Home component's state: `messages`, `input`, `isLoading`,
  `gameHtml`. It is a class with the submit handler split at its `await`. `Begin` runs up
  to the request and `Complete` takes the fetch outcome as a parameter. `HandleSubmit`
  runs both in order. The invariant `WellFormed` holds after every step: turns alternate
  user/assistant, user turns are non-blank, and a request is in flight exactly when the
  last turn is an unanswered user turn.
- `Text` (text.dfy) holds `trim` with the exact ECMAScript white-space set, and the
  literal pattern search that both the regular expression and `split` perform.

The regular expression `/```html\n([\s\S]*?)\n```/` is modelled as a search for the first
opening fence "```html\n", then the first closing fence "\n```" after it.
`FindBlockIsRegexMatch` proves this is the regex's own answer. A match exists iff some
opening fence is followed by a closing fence. The match found starts leftmost, and its
lazy group ends at the first closing fence.

The description is cut at the first "```html" (route.ts:83), without the newline. That
cut can come before the code block's opening fence (`CutPointsCanDiffer`). In the reply
format the system prompt asks for, the description therefore keeps the "KOD:" line: it
is "AÇIKLAMA: X\n\nKOD:", not "AÇIKLAMA: X" (`PromptFormatExtraction`). The model follows
the code here.

## Model

| member | source | states |
|---|---|---|
| Text.LeadingWhitespace | text-to-game/app/api/generate-game/route.ts:83 | the run that `trim` removes at the front: all white space, and the next character (if any) is not |
| Text.TrailingWhitespace | text-to-game/app/api/generate-game/route.ts:83 | the run that `trim` removes at the back: all white space, and the character before it (if any) is not |
| Text.Trim | text-to-game/app/api/generate-game/route.ts:83 | the result is a contiguous part of the input, only white space lies outside it, and it neither starts nor ends with white space |
| Text.TrimOfFramed | text-to-game/app/api/generate-game/route.ts:83 | trimming white space + m + white space gives exactly m when m has no white space at its ends, so `Trim` is uniquely determined |
| Text.TrimIdempotent | text-to-game/app/api/generate-game/route.ts:83 | trimming twice is trimming once |
| Text.TrimEmptyIff | text-to-game/app/page.tsx:41 | a string trims to "" exactly when it is all white space (the page's blank-input test) |
| Text.FindFrom | text-to-game/app/api/generate-game/route.ts:74 | the result, if any, is an occurrence at or after the start, and no occurrence lies between the start and it (none at all when absent) |
| GenerateGame.CheckMessage | text-to-game/app/api/generate-game/route.ts:41-46 | rejected exactly when the message is missing, not a string, or empty; otherwise the string itself is used |
| GenerateGame.UpstreamTurns | text-to-game/app/api/generate-game/route.ts:49-58 | length is history + 1; the history turns come first, unchanged in role and content and order; the last is the user turn holding the message |
| GenerateGame.FindBlock | text-to-game/app/api/generate-game/route.ts:74 | a found block is an opening fence followed, at or after the group start, by a closing fence |
| GenerateGame.FindBlockIsRegexMatch | text-to-game/app/api/generate-game/route.ts:74-78 | a block is found iff some "```html\n" is followed by some "\n```"; the found one starts leftmost and ends at the first closing fence (lazy group) |
| GenerateGame.BeforeFirst | text-to-game/app/api/generate-game/route.ts:83 | `split(sep)[0]` is a prefix of the input that is either the whole input or is followed by `sep`, and `sep` starts nowhere inside it: the text before the first occurrence |
| GenerateGame.GameCode | text-to-game/app/api/generate-game/route.ts:73-78 | "" when the regular expression does not match; the captured code never contains "\n```" |
| GenerateGame.GameCodeBetweenFences | text-to-game/app/api/generate-game/route.ts:74-78 | with a match, the game code is exactly the text between the opening fence and the closing fence |
| GenerateGame.Extract | text-to-game/app/api/generate-game/route.ts:72-84 | with no match the description is the reply unchanged and the code is ""; the code never contains "\n```" |
| GenerateGame.ExtractRoundTrip | text-to-game/app/api/generate-game/route.ts:74-78 | with a match, reply == pre + "```html\n" + gameCode + "\n```" + post, and no opening fence starts inside pre |
| GenerateGame.ExtractAgainFindsNothing | text-to-game/app/api/generate-game/route.ts:74 | extracting from the extracted code finds no block: description is that code, code is "" |
| GenerateGame.DescriptionIsTrimmedPrefix | text-to-game/app/api/generate-game/route.ts:80-84 | with a match, the description is the trimmed text before the first "```html", which lies at or before the opening fence |
| GenerateGame.CutPointsCanDiffer | text-to-game/app/api/generate-game/route.ts:73-84 | on "a```html \n```html\ng\n```" the block is at 10..19, the result is ("a", "g"), and the trimmed text before the block is "a```html", not the description |
| GenerateGame.ExtractComposed | text-to-game/app/api/generate-game/route.ts:72-84 | a reply built as pre + fenced code + post, with no backquote in pre and no closing fence in the code, extracts to (trim(pre), code) |
| GenerateGame.ComposedBlock | text-to-game/app/api/generate-game/route.ts:74-83 | an opening fence with no backquote before it and a later closing fence with none in between is the match, and `split('```html')` cuts at that opening fence |
| GenerateGame.ExtractAfterHead | text-to-game/app/api/generate-game/route.ts:72-84 | a description line (no backquote, no white space at its ends), a newline and a fenced block extract to exactly that line and that code |
| GenerateGame.PromptFormatExtraction | text-to-game/app/api/generate-game/route.ts:25-33 | a reply in the requested format "AÇIKLAMA: X\n\nKOD:\n```html\nY\n```" gives description "AÇIKLAMA: X\n\nKOD:" and code Y |
| GenerateGame.ReplyText | text-to-game/app/api/generate-game/route.ts:68-70 | no first content block is a throw; a non-text first block gives ""; a text block gives its text |
| GenerateGame.Respond | text-to-game/app/api/generate-game/route.ts:86-89 | the 200 response's message is the description when that is non-empty and the fixed fallback text when it is empty, so never empty; its code is the extracted code |
| GenerateGame.EmptyReplyGetsFallback | text-to-game/app/api/generate-game/route.ts:68-87 | a non-text or empty first block yields reply "" and the response (fallback message, "") |
| GenerateGame.Post | text-to-game/app/api/generate-game/route.ts:37-104 | 400 exactly for an invalid message, and then nothing is sent upstream; turns are sent iff the message is valid and the history can be mapped; those turns are history + user turn; 200 iff the call returned a first block, and then the response is the one built from that block's text; a 200 message is never empty |
| Page.SubmitDisabled | text-to-game/app/page.tsx:164 | the submit button is disabled exactly when the handler's guard would ignore a submit |
| Page.Home.constructor | text-to-game/app/page.tsx:12-15 | no turns, empty input, not loading, empty preview; the invariant holds |
| Page.Home.SetInput | text-to-game/app/page.tsx:154-161 | the text box takes the new text unless a request is loading (it is disabled); nothing else changes |
| Page.Home.Begin | text-to-game/app/page.tsx:39-56 | a request is posted iff the input is non-blank and nothing is loading; then the raw input is appended as a user turn, the box is cleared, loading is set, and the request carries the input and the turns before it; otherwise nothing changes |
| Page.Home.Complete | text-to-game/app/page.tsx:58-83 | exactly one assistant turn is appended (the server's message, or the apology on any failure); the preview changes only to a non-empty game code; loading ends; the invariant is kept |
| Page.Home.HandleSubmit | text-to-game/app/page.tsx:39-84 | an accepted submit adds exactly the user turn and the assistant turn after the unchanged earlier turns; a refused one changes nothing and sends nothing |
| Page.SubmittedRequestIsServed | text-to-game/app/page.tsx:49-69 | a request the page posts never gets 400; the model receives the page's turns after the user turn was shown; the assistant turn the page appends is never empty |
| Page.PreviewComesFromCodeBlock | text-to-game/app/page.tsx:71-73 | the preview changes only to the non-empty code of a block found in a text reply, which holds no closing fence |

## Left out

- The model call itself (SDK client, API key, model name, `max_tokens`, the system prompt text) is a network call. Its result is the `ModelCall` parameter. Only the reply format the prompt asks for is used, in `PromptFormatExtraction`.
- A request body that is not JSON makes `request.json()` throw, and the handler answers 500. The model starts from the parsed `message` and `conversationHistory` fields.
- Post: the 500 response's `details` text and the `console.error` logging are not modelled. A 500 is the constructor `Failure`.
- History entries are modelled as turns with a role and a string content. The source copies only `role` and `content` of each entry (route.ts:50-53), so extra fields are dropped, as in the model. A list holding a `null` or `undefined` entry makes `msg.role` throw, so the handler answers 500 before calling the model; the model folds it into `Unmappable` with every other history it cannot map, and does not tell them apart. Entries whose role or content has another type are passed on unchecked and are not modelled.
- Strings are sequences of Unicode code points, while JavaScript indexes UTF-16 code units. Positions differ for characters outside the Basic Multilingual Plane. The patterns are ASCII, so what is found and cut is the same.
- Page.Home.Complete requires a request in flight: in the page it only runs as the continuation of an accepted `Begin`. React's batching of state updates and any interleaving of two submits before a re-render are not modelled.
- Page.Home.HandleSubmit takes the fetch outcome as a parameter. `SubmittedRequestIsServed` and `PreviewComesFromCodeBlock` connect that outcome to the route.
- A 200 body without a string `message` cannot come from this route and is not modelled.
- Rendering, scrolling to the newest turn, writing the program into the iframe, and the iframe sandbox are user-interface side effects.
