# Example WhatsApp GPT bot: handlers, middleware and commands

A Dafny model of the deterministic parts of `examples/example-bot.py` of
whatsapp-chatgpt-python: the bot built on the library's `WhatsappGptBot`,
with its own text and image handlers, one message middleware, one response
middleware and a few command handlers.

- `wrappers.dfy` (`Wrappers`): the `Option` type.
- `strings.dfy` (`Strings`): the Python string built-ins the bot uses —
  `lower`, `in`, `startswith`, `endswith`, `replace`, `strip`, `split()`,
  `split(maxsplit=1)` and `str(int)` — over `seq<char>`, with ASCII case
  mapping and Python's ASCII whitespace.
- `session.dfy` (`Session`): message parts, content (a string or a list of
  parts), transcript messages, and the session record `SessionData`, a class
  whose `messages` and `variables` fields the handlers update in place.
- `handlers.dfy` (`Handlers`): `EnhancedTextHandler.process_message` as the
  pure `ProcessText` (classification in the order code, question,
  translation, greeting, plain; the text wrapped as `TAG: text\n\n[note]`),
  and `EnhancedImageHandler.process_message` as the method
  `ProcessImageResult`, which rewrites a string result into a new string and
  a list result in place, on an `array<Part>`.
- `middleware.dfy` (`Middleware`): `logging_middleware` as a method that
  updates the session's tracking variables and returns the display string it
  would log, and `formatting_middleware` as a pure function of the response,
  the transcript and the session's variables.
- `commands.dfy` (`Commands`): the `/clear` handler as a method with the
  source's scanning loop, the `/info` message count, and the `/echo`
  argument split.

The base handlers' results (`super().process_message`) are inputs: a string
for the text handler, and an `ImageResult` (a string, or the shared list of
parts) for the image handler. `int(time.time())` is the parameter `now`.

Two behaviours of the code are worth stating: `/clear` keeps the first
system message found anywhere in the transcript, not only a leading one
(lines 152-156), and it keeps the tracking variables by merging the
session's own variables map back into itself (lines 165-173).

## Model

| member | source | states |
|---|---|---|
| `Handlers.ProcessText` | examples/example-bot.py:65-88 | an empty text is returned unchanged; any other text is embedded verbatim after its kind's head and the result is longer than the text |
| `Handlers.FrameRoundTrip` | examples/example-bot.py:75-88 | a text wrapped with any of the five heads and notes is read back by `Unframe` as that kind and that exact text |
| `Handlers.ProcessTextRoundTrip` | examples/example-bot.py:69-88 | for a non-empty text, `Unframe` of the handler's output gives back the text's kind and the text itself, so the output is exactly one tag, ": ", the text, and that kind's note |
| `Handlers.ProcessTextInjective` | examples/example-bot.py:69-88 | two texts with the same handler output are equal |
| `Handlers.Classify` | examples/example-bot.py:72-88 | each of the five kinds holds exactly when its test passes and every earlier test fails; code terms and translation phrases are substrings of the lowered text, greetings are whole whitespace-delimited words of it |
| `Handlers.GreetsTokens` | examples/example-bot.py:84 | a greeting is among the words of `split()` exactly when it is a whole whitespace-delimited word of the lowered text |
| `Handlers.CodeTermAnyCase` | examples/example-bot.py:72-75 | a code term in any ASCII letter case anywhere in the text makes it a code request, whatever else it contains |
| `Handlers.CodeBeatsQuestion` | examples/example-bot.py:74-79 | "Can you write code?" is a code request although it ends in '?' and starts with "can" |
| `Handlers.TranslationBeatsGreeting` | examples/example-bot.py:77-85 | "Say hello in French" is a translation request although it contains the greeting "hello" |
| `Handlers.WholeWordGreeting` | examples/example-bot.py:84-85 | "hi" is a greeting |
| `Handlers.GluedGreetingIsPlain` | examples/example-bot.py:84-88 | "hi!" is a plain message, since "hi" is not a whole word of it |
| `Strings.SplitTokens` | examples/example-bot.py:84 | a string is one of the words `split()` returns exactly when it stands in the text between whitespace or the text's ends and contains no whitespace |
| `Strings.Split` | examples/example-bot.py:84 | `split()` gives no words exactly when the string is all whitespace |
| `Strings.Lower` | examples/example-bot.py:72 | `lower()` keeps the length, maps each character through ASCII lowering, leaves no upper-case ASCII letter and changes no other character |
| `Strings.ContainsLower` | examples/example-bot.py:72-74 | a substring of a text stays a substring once both are lowered |
| `Handlers.EnhancedImageTextChanges` | examples/example-bot.py:47-51 | the string branch changes a description exactly when it contains "[The user sent an image" |
| `Strings.Replace` | examples/example-bot.py:48-51 | `replace` leaves a string without the pattern unchanged |
| `Strings.ReplaceInserts` | examples/example-bot.py:48-51 | a string with the pattern holds the replacement after `replace` |
| `Strings.ReplaceAtFirst` | examples/example-bot.py:48-51 | `replace` keeps the text before the first occurrence, puts the replacement in its place and goes on replacing in the text after it; with the case without occurrences this fixes the result of every replacement, so every non-overlapping occurrence is replaced, scanning left to right |
| `Strings.ReplaceGrows` | examples/example-bot.py:48-51 | with a longer replacement, `replace` never shortens a string and lengthens it when the pattern occurs |
| `Handlers.EnhancedParts` | examples/example-bot.py:54-60 | the list keeps its length and every element after the first; the first changes exactly when it is a dictionary with 'type' 'text' and 'text' "Analyzing this image", and then only its 'text' becomes the detailed prompt; an empty list stays empty |
| `Handlers.EnhancedPartsIdempotent` | examples/example-bot.py:54-60 | rewriting the list a second time changes nothing |
| `Handlers.ProcessImageResult` | examples/example-bot.py:42-60 | a string result becomes the rewritten string; a list result is rewritten in place as `EnhancedParts` says and the same list object is returned |
| `Middleware.Preview` | examples/example-bot.py:98-101 | the display is the string itself up to 100 characters, otherwise its first 100 characters followed by "...", so never longer than 103 |
| `Middleware.ContentDisplay` | examples/example-bot.py:98-101 | a string of at most 100 characters is shown as itself, a longer one as its first 100 characters and "...", and a list of parts as the fixed media text; the display never exceeds 103 characters |
| `Middleware.Tracked` | examples/example-bot.py:106-112 | the variables gain "last_interaction" set to the clock reading and "message_count" one above its old value (0 when absent); every other key keeps its value |
| `Middleware.TrackedRepeatedly` | examples/example-bot.py:109-112 | after n messages the count is n above where it started |
| `Middleware.LoggingMiddleware` | examples/example-bot.py:96-115 | content and transcript are handed on unchanged, the display is the content's preview (or the media text for a list), the session's variables become `Tracked` of the old ones and its transcript is untouched |
| `Middleware.FormattingMiddleware` | examples/example-bot.py:119-135 | the transcript is handed on unchanged |
| `Middleware.Signed` | examples/example-bot.py:121-126 | a stripped response that is short or already ends in "_" is returned as it is; one that needs a signature is returned with the stripped response first and the signature after it; either way the result is already stripped and needs no further signature |
| `Middleware.SpaceCodeFences` | examples/example-bot.py:130-133 | a response without a code fence is unchanged, and the spacing never shortens a response |
| `Middleware.FormattingSigns` | examples/example-bot.py:121-126 | a stripped response longer than 100 characters, not ending in "_" and without a code fence, comes out as the stripped response followed by the signature with the session's message count |
| `Middleware.FormattingStripsOnly` | examples/example-bot.py:121-130 | a short or already "_"-terminated stripped response without a code fence comes out stripped and nothing else |
| `Middleware.FormattingSignsOnce` | examples/example-bot.py:121-135 | a signed output ends in "_", so formatting it again adds no second signature |
| `Middleware.SignatureShape` | examples/example-bot.py:126 | the signature ends in "_" and contains no backquote |
| `Middleware.SpaceCodeFencesKeepsLast` | examples/example-bot.py:130-133 | spacing the code fences keeps a last character that is neither a newline nor a backquote |
| `Strings.ReplaceKeepsLast` | examples/example-bot.py:132-133 | `replace` keeps a last character that cannot end the pattern |
| `Strings.Strip` | examples/example-bot.py:121 | `strip()` gives a slice of the string with only whitespace before and after it; the slice is empty exactly for an all-whitespace string and otherwise has non-whitespace ends; a string with non-whitespace ends is returned as it is |
| `Strings.IntToDecimal` | examples/example-bot.py:126 | `str(n)` is non-empty, made of digits after an optional leading '-', which appears exactly for negative numbers; the digits denote the number's magnitude and have no leading zero except in "0" |
| `Strings.NatToDecimalRoundTrip` | examples/example-bot.py:126 | the decimal digits of a count read back as the count |
| `Commands.FirstSystem` | examples/example-bot.py:152-156 | there is no result exactly when no message has role "system"; otherwise the result is the message at the first index whose role is "system" |
| `Commands.FirstSystemAt` | examples/example-bot.py:153-156 | scanning stops at the first system message, and a full scan without one means there is none |
| `Commands.ClearedHistory` | examples/example-bot.py:152-162 | the cleared transcript has at most one message; it is empty exactly when no message is a system message, and otherwise is exactly the message at the first index whose role is "system" |
| `Commands.ClearKeepsLeadingSystem` | examples/example-bot.py:152-160 | a transcript that starts with a system message is cleared to that message alone |
| `Commands.ClearIdempotent` | examples/example-bot.py:152-162 | clearing twice is the same as clearing once |
| `Commands.ClearHistoryHandler` | examples/example-bot.py:145-175 | the session's transcript becomes `ClearedHistory` of the old one, its tracking variables keep their values, and the reply is the fixed confirmation |
| `Commands.InfoCount` | examples/example-bot.py:208-210 | the reported count is the transcript length less one for a non-empty transcript and 0 for an empty one |
| `Commands.InfoCountMeaning` | examples/example-bot.py:208-210 | with exactly one, leading, system message the count equals the number of non-system messages; for a non-empty transcript with no system message it is one less than that |
| `Commands.InfoAfterClear` | examples/example-bot.py:208-210 | after `/clear`, the reported count is 0 |
| `Commands.EchoHandler` | examples/example-bot.py:228-240 | without a second part the reply is the usage text; otherwise the forwarded text is a non-empty tail of the message that starts with a non-whitespace character right after a whitespace character, and the reply quotes it |
| `Commands.EchoForwardsRest` | examples/example-bot.py:230-240 | text is forwarded exactly when the message has at least two words; the forwarded text is the message's verbatim tail and splits into the words after the command; otherwise the reply is the usage text |
| `Strings.SplitOnceMatchesSplit` | examples/example-bot.py:231 | `split(maxsplit=1)` has the same first word as `split()`, a second part exactly when there is a second word, and that part splits into the remaining words |
| `Strings.SplitOnce` | examples/example-bot.py:231 | `split(maxsplit=1)` gives at most two parts, the first non-empty; a second part is the string's own tail, non-empty, starting with non-whitespace right after a whitespace character |

## Left out

- Bot construction, environment and `.env` loading, logging setup and `bot.run_forever`: configuration and I/O.
- The `logger.info` calls: `LoggingMiddleware` returns the display string it would log instead.
- `notification.answer` and `notification.process_with_gpt`: outbound calls; the handlers return the reply text and the text to forward.
- The base handlers (`super().process_message`), `get_session_data`, `update_session_data`, `supports_images`, `get_model` and the router behind the decorators: library code that is not part of this model. The session is the object they hand over; saving it back is not modelled.
- The rest of the `/info` text (model name, vision flag, history limit, timeout) and the fixed replies of `/help` and `/weather`: constant text around library calls.
- `async`/`await`: the handlers are ordinary sequential members.
- `temperature`: a floating-point configuration value.
- Unicode case mapping and whitespace: `Lower`, `Strip` and `Split` use ASCII only, so characters such as the Kelvin sign, which Python lowers to an ASCII letter, are not lowered.
- A falsy non-string base text (`None`): the text handler's input is a string, so only the empty string takes the pass-through branch.
- Dictionary values in message parts are strings; a non-string 'type' or 'text' value, or a result that is neither a string nor a list, is not represented.
- `context["variables"]` being absent and being an empty dictionary are not distinguished: both are the empty map, and the variables' values are integers.
- FormattingMiddleware, SpaceCodeFences: when the response holds a code fence, the lemmas state only that the fence spacing keeps a final "_" (so a signature survives it), not where the blank lines are inserted.
