# Toromax message handler, modelled in Dafny

Toromax is a Discord bot. When someone mentions it, it puts the question to a
chat-completion provider (Groq) and posts the answer back in the channel. This
project models the core of the bot, the `on_message` handler of `bot.py`
(lines 41-121), and proves what the handler promises. The model covers:

- **which messages it answers**: the bot's own messages are ignored, and messages
  that do not mention it only go on to command processing;
- **the question it asks**: every `<@id>` mention token of the bot is removed with
  Python's `str.replace` and the rest is trimmed with `str.strip`;
- **how it answers**: a greeting for an empty question, a configuration error when
  no provider client exists, or the reply (cut into 1990-character slices when it
  is longer than 2000 characters), followed by an apology when the provider fails
  or a send of the reply is refused;
- **command processing**: whether `bot.process_commands` runs afterwards.

The two external services are inputs. The provider's outcome is a `Completion`:
`Reply(text)`, or `Failed` for any exception on the way, including a missing
`message.content`. The chat platform's refusals are a set `rejected` of send
attempts, numbered from 0 within one handler call; each of those attempts raises.
The platform also refuses a message with empty content; an empty reply is
therefore refused only when its attempt is in `rejected`, and the lemmas that
assume an accepted reply (`ShortReplySentWhole`) cover an empty one only under
that assumption.

Modules:

- `PyStr` (`pystr.dfy`): the Python string builtins the handler relies on.
  - `strip`, via `lstrip`/`rstrip` and Python's `isspace` set.
  - `replace(tok, "")` as a single left-to-right pass.
  - `split` and `join` as an independent reference definition for that pass.
- `Question` (`question.dfy`): the mention token `<@id>` and the question extracted
  at line 49.
- `Chunking` (`chunking.dfy`): the reply slicing of lines 102-107.
- `Router` (`router.dfy`):
  - `Handle`, the specification of one handler call: the send attempts in order,
    the question put to the provider, and whether command processing runs.
  - The class `MessageRouter`, whose `OnMessage` method performs the handler step
    by step. It appends to an outbox, and its contract ties each call to `Handle`.

Where the mention token stands matters. A token at either end of the message
gives the stripped rest, provided the rest holds no other mention token
(`MentionAtEitherEnd`). A token between two words keeps the whitespace on both
sides of it, so `"a <@id> b"` asks `"a  b"` while
`"<@id> a b"` asks `"a b"` (`MentionInsideKeepsSpaces`,
`MentionInFrontDropsSpace`). The question is therefore not independent of the
token's position; the model follows the code.

## Model

| member | source | states |
|---|---|---|
| PyStr.TrimStart | bot.py:49 | `lstrip` leaves a suffix of the text, and everything it drops is whitespace; the result is empty or starts with a non-whitespace character |
| PyStr.TrimEnd | bot.py:49 | `rstrip` leaves a prefix of the text, and everything it drops is whitespace; the result is empty or ends with a non-whitespace character |
| PyStr.Strip | bot.py:49 | `strip` gives the empty string exactly when the text is all whitespace; otherwise the result neither starts nor ends with whitespace, and it is never longer than the text |
| PyStr.StripIsFramedSlice | bot.py:49 | what `strip` keeps is a contiguous slice of the text with only whitespace before and after it |
| PyStr.StripAt | bot.py:49 | any split of the text into whitespace, a slice that neither starts nor ends with whitespace, and whitespace, is the one `strip` finds (uniqueness) |
| PyStr.RemoveAll | bot.py:49 | `replace(tok, "")` never makes the text longer |
| PyStr.RemoveAllKeepsUnmatched | bot.py:49 | text in front of which no occurrence of the token starts is kept unchanged by the removal |
| PyStr.RemoveAllConcatsPieces | bot.py:49 | removal yields the concatenation of the pieces of any left-to-right, non-overlapping split at the token |
| PyStr.SplitIsLeftmost | bot.py:49 | the reference `split` joins back to the text, and none of its pieces hides an occurrence a left-to-right scan would take |
| PyStr.RemoveAllIsConcatOfSplit | bot.py:49 | `s.replace(tok, "") == "".join(s.split(tok))` and `tok.join(s.split(tok)) == s` for every text |
| Question.Decimal | bot.py:49 | the decimal rendering of the id is non-empty and made of digits only |
| Question.DecimalRoundTrip | bot.py:49 | the rendering of the id reads back as the id, and has no leading zero unless it is the single digit `0` |
| Question.MentionToken | bot.py:49 | the mention token starts with `<@`, ends with `>`, is at least 4 characters long, and has no other `>` |
| Question.ExtractQuestion | bot.py:49 | the question has no leading or trailing whitespace and is never longer than the message |
| Question.QuestionFromPieces | bot.py:49 | the question is the stripped concatenation of the text between the tokens a left-to-right scan finds |
| Question.TokenAfterTokenFreeText | bot.py:49 | a token placed after token-free text creates no occurrence that starts inside that text |
| Question.MentionAtEitherEnd | bot.py:49 | a token-free question with the token written before it or after it yields the stripped question |
| Question.MentionAloneIsEmpty | bot.py:49 | a message that is only the mention token asks the empty question |
| Question.RemoveAllExample | bot.py:49 | one pass over `<@<@1>1>` removes the inner `<@1>` and keeps the `<@1>` that removal brings together |
| Question.RemovalDoesNotRescan | bot.py:49 | the bot with id 1 extracts the question `<@1>` from `<@<@1>1>` |
| Question.NoTokenWithoutAngle | bot.py:49 | text without `<` contains no mention token |
| Question.MentionBetween | bot.py:49 | a token after token-free text is removed: the question is the strip of that text, kept as it is, followed by the text after the token with its own tokens removed |
| Question.MentionBetweenPlainText | bot.py:49 | a token between two token-free texts yields the strip of the two texts joined |
| Question.StripExamples | bot.py:49 | `"a  b"` strips to itself and `" a b"` strips to `"a b"` |
| Question.MentionInsideKeepsSpaces | bot.py:49 | `"a <@id> b"` asks `"a  b"`, keeping both spaces next to the token |
| Question.MentionInFrontDropsSpace | bot.py:49 | `"<@id> a b"` asks `"a b"` |
| Chunking.ChunksStep | bot.py:103 | the slices of a text are its first 1990 characters followed by the slices of the rest; an empty text has none and a text of at most 1990 characters is one slice |
| Chunking.ChunksConcat | bot.py:103-105 | the slices, concatenated in order, give back the reply exactly |
| Chunking.ChunksShape | bot.py:103 | there are ceil(L/1990) slices of a non-empty reply; all but the last are exactly 1990 long, the last is 1 to 1990 long, and the slice k starts at offset 1990·k |
| Chunking.Replies | bot.py:102-107 | the messages concatenate back to the reply and each fits in 2000 characters; a reply of at most 2000 characters is one message; a longer one is ceil(L/1990) slices, all but the last 1990 long and the last 1 to 1990 long |
| Chunking.FiveThousandCharacterReply | bot.py:102-103 | a 5000-character reply goes out as messages of 1990, 1990 and 1020 characters |
| Router.SendInOrder | bot.py:104-105 | the messages are tried in order; each attempt is delivered exactly when it is not refused; every attempt but the last is delivered; the loop stops early only at a refused send |
| Router.OwnMessageIgnored | bot.py:43-44 | the bot's own message leads to no send, no provider call and no command processing |
| Router.EmptyQuestionGreets | bot.py:51-56 | a mention with an empty question sends exactly the greeting, makes no provider call and does not reach command processing |
| Router.MissingClientReported | bot.py:58-60 | a non-empty question without a provider client sends exactly the configuration error, makes no provider call and does not reach command processing |
| Router.ProviderAskedTheQuestion | bot.py:47-91 | the provider is called exactly for a non-self mention with a non-empty question and a client, and is asked that question, which has no surrounding whitespace |
| Router.CommandsRunOnFallThrough | bot.py:43-121 | command processing runs exactly for a message from someone else that either does not mention the bot or reaches the provider call |
| Router.UnmentionedOnlyCommands | bot.py:47-121 | a message from someone else that does not mention the bot sends nothing, calls no provider and runs command processing |
| Router.AskedCallAnswers | bot.py:62-114 | a call that reaches the provider sends what `Answer` sends |
| Router.ProviderFailureApologises | bot.py:109-114 | a failed provider call sends exactly one apology and no part of a reply |
| Router.ShortReplySentWhole | bot.py:102-107 | an accepted reply of at most 2000 characters goes out as exactly one delivered message carrying all of it |
| Router.AcceptedReplyDelivered | bot.py:102-107 | a reply none of whose sends is refused is delivered as exactly the messages `Replies` cuts it into |
| Router.LongReplySentInSlices | bot.py:102-105 | an accepted reply over 2000 characters is delivered as ceil(L/1990) messages that concatenate to it, all but the last 1990 long |
| Router.RefusedSendApologises | bot.py:104-114 | when a send of the reply is refused, the slices are tried in order up to the first refused one: every earlier slice is delivered and was not refused, the last one tried is refused and not delivered, and the apology follows |
| Router.RefusedReplyEndsInApology | bot.py:62-114 | for a whole handler call that reaches the provider, the same: slices up to the first refused one, then the apology |
| Router.MessageRouter.Send | bot.py:105 | one send attempt is appended to the outbox, delivered exactly when it is not refused |
| Router.MessageRouter.SendEach | bot.py:104-105 | the send loop appends exactly `SendInOrder` of the slices, and reports how many attempts were made and whether one raised |
| Router.MessageRouter.SendReply | bot.py:102-107 | sends the reply whole or slice by slice, appending exactly `SendInOrder(Replies(reply))` |
| Router.MessageRouter.Ask | bot.py:62-114 | records the question put to the provider and appends exactly what `Answer` says: the reply's sends, then the apology on a failure |
| Router.MessageRouter.OnMention | bot.py:47-118 | for a message that mentions the bot, appends exactly the sends and the request `HandleMention` says, and falls through exactly where it does |
| Router.MessageRouter.OnMessage | bot.py:41-121 | one handler call appends to the outbox, the requests and the command runs exactly what `Handle` says |

## Left out

- Loading the environment, the Discord token and the Groq key, and constructing the
  client (bot.py:8-25): only whether a client exists is an input.
- The Discord client, intents, `bot.run` and the startup checks: platform plumbing.
- `on_ready` and the presence update: display side effects with no logic.
- The Groq `chat.completions.create` call, the persona prompt, the model name,
  `temperature` and `max_tokens`: a network call, replaced by the `Completion` input.
  The question it is given is recorded (`request`).
- `bot.user.mentioned_in`: library code that also matches @everyone and role
  mentions; its result is the input `mentionsBot`.
- The `typing()` context manager: the typing indicator is visible in the channel
  but is not part of the model, which assumes that entering it succeeds. When it
  raises (for example `Forbidden` at bot.py:64), the provider is not called,
  nothing is sent, and command processing still runs (bot.py:115-121).
- Router.ProviderAskedTheQuestion: the "exactly" holds under the assumption that
  `typing()` succeeds; `Handle` records a request for every call that reaches it.
- The `print` logging in the handlers and the kind of exception a send raises.
  `Forbidden` is an `Exception`, so every refused send has the same effect on
  what is sent and on command processing; refusals are the `rejected` set.
- The `!ayuda` embed and `!ping` commands: static text, and a float latency.
- Interleaving of handlers at `await` points: concurrency owned by the event loop;
  each call is modelled on its own.
- Question.Decimal: renders a non-negative id only; Discord ids are never negative.
