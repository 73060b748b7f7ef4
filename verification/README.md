# Functional-test driver for a chat bot: a Dafny model

The `Driver` class (`tests/functional/driver.py`) impersonates a human user
of a chat platform so that functional tests can talk to the bot under
test. This project models the logic in that class that does not just
forward a call:

- **Outbound messages.** `send_channel_message` formats the text, including
  the `<@BOTID>` mention with or without a colon. Posting is a `Post`
  value.
- **The realtime reader.** `_websocket_safe_read` accumulates every received
  frame followed by a newline, then strips trailing whitespace.
  `_rtm_read_forever` splits that on newlines, decodes each piece, and
  appends the decoded events to the shared buffer. `clear_events` empties
  the buffer. The buffer's history is a sequence of atomic operations
  (a received batch, or a clear), folded by `Ingestion.Run`.
- **The buffer scans.**
  - `_is_bot_message`
  - `_has_uploaded_file_rtm`
  - `_has_got_message_rtm`, with its channel rule: when the channel
    argument is a public channel, the user's pattern is prefixed with the
    escaped mention of the driver. The argument selects nothing else: every
    buffered event is scanned, whatever its conversation.

  Python's `event[key]` raises `KeyError` on a missing field. Every event
  field is therefore optional. A scan raises exactly when it reaches an
  event lacking a key it reads before it finds what it looks for: every
  earlier event was readable and did not match.
- **The polling loops.**
  - `_wait_for_bot_presense`, `wait_for_bot_online`, `wait_for_bot_offline`
  - `_wait_for_bot_message`, `wait_for_bot_direct_message`,
    `wait_for_bot_channel_message`
  - `wait_for_file_uploaded`
  - `ensure_no_channel_reply_from_bot_rtm`, which is also reachable as
    `ensure_no_channel_reply_from_bot`

  All of them are `for _ in xrange(n)` loops, and all share one loop,
  `Polling.PollFrom`. The presence, message and file waits break out on
  success and raise from their `else:` clause.
  `ensure_no_channel_reply_from_bot_rtm` neither breaks nor has an `else:`;
  it returns once all its attempts are made. What an attempt observes is a
  parameter indexed by the attempt number: the buffer it scans, or the
  presence reported.

Modules:

| module | file | contents |
|---|---|---|
| `Outcomes` | outcomes.dfy | `Option`, `Result`, `Outcome` and the two exceptions the driver raises (`KeyError`, `AssertionError`) |
| `Text` | text.dfy | `startswith`, Python 2 `str.rstrip()` (ASCII whitespace), `split`, `join`, the newline-terminated accumulation of frames |
| `Events` | events.dfy | events, the session identities, the in-order scan `FindFirst`, the three scans |
| `LiteralPattern` | literal_pattern.dfy | a reference semantics for `re.match` on patterns made of ordinary characters and escaped punctuation |
| `Messaging` | messaging.dfy | message formatting, reading a mention back, and what the channel pattern demands of a reply |
| `Ingestion` | ingestion.dfy | the reader loop and `clear_events` as operations on the buffer |
| `Polling` | polling.dfy | the waiting loops |

Behaviour of the code worth knowing:

- **Watermark.** The realtime scans never consult the send-time watermark
  `_start_ts`. A wait therefore sees every event buffered since the last
  `clear_events`, not only events after the last send.
- **Reader lifetime.** The reader thread is not guaranteed to run forever.
  A piece of the stripped read that does not decode makes `json.loads`
  raise inside the thread, which ends it. In a cleanly framed batch every
  frame is such a piece. A blank last frame is stripped away before the
  split and never decoded. A frame holding a newline is split into pieces
  that may not decode even when the frame does. Later batches are never buffered
  (`Ingestion.DeadReaderStaysDead`).
- **Failing waits.** A wait does not only fail with its assertion error. An
  event lacking a key the scan reads raises `KeyError` out of the wait.
- **Conversations.** Neither message wait filters events by conversation.
  `wait_for_bot_direct_message` and `wait_for_bot_channel_message` scan
  every buffered event, so a matching message posted in any conversation
  satisfies either of them (`Events.MessageScanIgnoresConversation`).
- **Bot channel messages.** A message counts as a bot channel message only
  when its channel id starts with `C`. Group conversations are not
  included.

## Model

| member | source | states |
|---|---|---|
| Text.RStrip | tests/functional/driver.py:158 | `rstrip()` keeps a prefix of the text that is empty or does not end in whitespace, and everything it removes is whitespace |
| Text.RStripEmptyIff | tests/functional/driver.py:158-163 | the stripped read is empty exactly when the accumulated text was all whitespace |
| Text.Split | tests/functional/driver.py:165 | `split('\n')` yields at least one piece, and no piece contains the separator |
| Text.JoinSplit | tests/functional/driver.py:165 | joining the pieces of a split with the separator gives the text back |
| Text.SplitJoin | tests/functional/driver.py:165 | splitting a join of separator-free pieces gives the pieces back |
| Text.JoinLinesAllSpace | tests/functional/driver.py:156 | the frames accumulated with a newline after each are all whitespace exactly when every frame is |
| Text.FramesRoundTrip | tests/functional/driver.py:151-165 | accumulating frames with newlines, stripping, then splitting on newlines gives back exactly the frames received, provided no frame holds a newline and the last one ends in a non-whitespace character |
| Events.FindFirst | tests/functional/driver.py:126-129 | the in-order scan stops at the first event whose test holds (its index) or raises (its error), and runs off the end only when every test said no |
| Events.FindFirstStopsAt | tests/functional/driver.py:126-129 | when every test before position `k` said no and the test at `k` did not, the scan stops at `k`: it returns that index, or raises what that test raised |
| Events.IsBotMessage | tests/functional/driver.py:204-210 | raises `KeyError('type')` exactly when the event has no type; otherwise true exactly for a message in a channel whose id starts with `C`, from the bot's user id or under the bot's display name |
| Events.DirectMessagesNeverBotAuthored | tests/functional/driver.py:207-208 | an event in a conversation whose id does not start with `C` is never a bot channel message |
| Events.OwnPostsNeverBotAuthored | tests/functional/driver.py:209-210 | the echo of the driver's own post is not taken for the bot's when driver and bot identities differ |
| Events.UploadedFileTest | tests/functional/driver.py:189-191 | the per-event file test raises exactly when a key its `and` chain reaches is missing: the type; for a `file_shared` event the file or its name; the file's user only when the name is the one sought. The error is the `KeyError` naming the first missing key: `type`, `file`, `name` or `user`. Otherwise it holds exactly for a `file_shared` event of the named file owned by the bot |
| Events.HasUploadedFileRtm | tests/functional/driver.py:186-193 | raises exactly when some event lacks a key the test reads while every earlier event was read and is not the bot's file, and the error is a `KeyError`; returns false exactly when every event is readable and none is the bot's file; returns true only when the buffer holds the bot's file of that name |
| Events.FileScanRaisesThere | tests/functional/driver.py:186-193 | at the first unreadable event reached before the bot's file, the scan raises exactly what the per-event test raises for that event |
| Events.OtherUploadersIgnored | tests/functional/driver.py:189-191 | a file of the right name that anybody but the bot shares never satisfies the check |
| Events.MessagePattern | tests/functional/driver.py:123-124 | in a public channel the searched pattern is exactly the escaped driver mention `\<@ID\>: ` followed by the caller's pattern (it starts with the one, ends with the other, and is no longer than both together); elsewhere it is the caller's pattern unchanged |
| Events.MessageTest | tests/functional/driver.py:127 | the per-event message test raises exactly when the event has no type, or is a message without text, with `KeyError('type')` or `KeyError('text')` accordingly; otherwise it holds exactly for a message event whose text the matcher accepts |
| Events.HasGotMessageRtm | tests/functional/driver.py:122-129 | raises exactly when some event lacks `type`, or is a message lacking `text`, while every earlier event was read and did not match, and the error is `KeyError('type')` or `KeyError('text')`; returns false exactly when every event is readable and none matches the channel-adjusted pattern; returns true only when one does |
| Events.MessageScanRaisesThere | tests/functional/driver.py:126-129 | at the first unreadable event reached before a match, the scan raises exactly what the per-event test raises for that event |
| Events.MessageScanIgnoresConversation | tests/functional/driver.py:122-129 | the scan's result does not change when the events' conversations change: the channel argument only decides the mention prefix |
| Events.FindFirstSameAnswers | tests/functional/driver.py:126-129 | two buffers on which the per-event test answers alike, place by place, are scanned alike |
| LiteralPattern.LiteralOfPlainPrefix | tests/functional/driver.py:124 | ordinary characters in front of a pattern stand for themselves |
| LiteralPattern.LiteralOfEscapedChar | tests/functional/driver.py:124 | a backslash before a non-alphanumeric character stands for that character |
| Messaging.FormatMention | tests/functional/driver.py:59 | a mention formatted as `<@ID>`, optional colon, space and body reads back as the same target, colon choice and body whenever the id holds no `>` |
| Messaging.FormatParsedMention | tests/functional/driver.py:59 | every text that reads as a mention is exactly the formatting of what was read |
| Messaging.SendChannelMessage | tests/functional/driver.py:56-60 | the channel message goes to the test channel under the driver's name; addressed to the bot, it starts with the bot's mention, is longer than the message, and reads back as a mention of the bot carrying the message with the chosen colon; otherwise the text is the message itself |
| Messaging.ChannelPatternRequiresMention | tests/functional/driver.py:122-127 | in a public channel, for a plain driver id and a literal pattern, a text matches exactly when it starts with `<@ID>: ` followed by the pattern's literal |
| Messaging.MentionPatternLiteral | tests/functional/driver.py:124 | the escaped mention pattern `\<@ID\>: PATTERN` stands for the text `<@ID>: ` and the pattern's literal |
| Messaging.BotReplyToDriverMatches | tests/functional/driver.py:122-127 | a bot reply written `<@DRIVERID>: reply` satisfies the channel wait exactly when the reply starts with the pattern's literal |
| Messaging.ChannelPatternExample | tests/functional/driver.py:123-127 | with driver id `U1` and pattern `hi`, the text `<@U1>: hi` matches and the bare `hi` does not |
| Ingestion.SafeRead | tests/functional/driver.py:151-158 | the read never ends in whitespace; for a non-empty batch whose frames hold no newline and whose last frame ends in a non-whitespace character, splitting the read on newlines gives back exactly the frames |
| Ingestion.SafeReadEmptyIff | tests/functional/driver.py:151-163 | the read is empty, and the batch ignored, exactly when every frame received was blank |
| Ingestion.ParseAll | tests/functional/driver.py:165 | decoding the pieces succeeds exactly when every piece decodes, and yields one event per piece |
| Ingestion.ParseAllPointwise | tests/functional/driver.py:165 | each decoded event is the decoding of the piece at the same position |
| Ingestion.ParseAllAppend | tests/functional/driver.py:165 | decoding two runs of pieces one after the other decodes their concatenation |
| Ingestion.Ingest | tests/functional/driver.py:162-165 | when the reader survives an iteration, the events already buffered stay unchanged at the front of the buffer |
| Ingestion.IngestAppends | tests/functional/driver.py:160-166 | a blank batch leaves the buffer unchanged; a cleanly framed batch is taken in exactly when all its frames decode, and then its events are appended whole after the buffered ones |
| Ingestion.Step | tests/functional/driver.py:160-166 | an ended reader thread never runs again, and receiving a batch never alters or removes the events already buffered |
| Ingestion.UndecodableBatchEndsReader | tests/functional/driver.py:160-166 | in a cleanly framed batch, a frame that does not decode ends the reader thread and buffers nothing of its batch |
| Ingestion.DeadReaderStaysDead | tests/functional/driver.py:160-166 | once the reader thread has ended, no later batch is buffered |
| Ingestion.ReceivesOnlyAppend | tests/functional/driver.py:164-165 | without a clear, the events already buffered are never altered or removed |
| Ingestion.ReceiveAppendsBatch | tests/functional/driver.py:162-165 | a well-framed batch whose frames all decode is appended whole, after the buffered events |
| Ingestion.ArrivalOrderPreserved | tests/functional/driver.py:151-166 | receiving decodable batches appends exactly the decoded frames in arrival order, none dropped or repeated |
| Ingestion.RunDecodable | tests/functional/driver.py:160-166 | the buffer after decodable batches is the old events followed by each batch's events in turn |
| Ingestion.ClearDiscardsEarlier | tests/functional/driver.py:212-214 | after a clear, the buffer is what the later operations build from an empty buffer, so no earlier event is seen again; only whether the reader thread is still running carries over |
| Polling.PollFrom | tests/functional/driver.py:101-107 | the loop either falls into its `else:` after all attempts because every attempt said to keep waiting, or stops at the first attempt that broke or raised, with that attempt's effect |
| Polling.PollWithoutErrors | tests/functional/driver.py:101-107 | when no attempt raises, a successful attempt makes the loop return; when every attempt says to keep waiting, the loop makes them all and ends as its `else:` says |
| Polling.BreakingPoll | tests/functional/driver.py:101-107 | a loop whose `else:` raises returns only after a successful attempt preceded by unsuccessful ones; otherwise it raises what an attempt raised, or raises the timeout error after all its attempts |
| Polling.SilentPoll | tests/functional/driver.py:78-85 | a loop that never breaks returns after all its attempts exactly when every attempt kept waiting, and otherwise raises the first error |
| Polling.WaitForBotPresence | tests/functional/driver.py:43-51 | the presence wait makes at most ten polls, and the only error it can raise is `test bot is still offline` or `online`, as the wanted state dictates |
| Polling.WaitForBotPresenceEnds | tests/functional/driver.py:43-51 | returns exactly when one of the ten polls sees the wanted state, at the first such poll; otherwise raises `test bot is still offline` or `online` after ten polls |
| Polling.WaitForBotOnline | tests/functional/driver.py:37-38 | returns exactly when the bot is seen active within ten polls, and otherwise reports it still offline |
| Polling.WaitForBotOffline | tests/functional/driver.py:40-41 | returns exactly when the bot is seen away within ten polls, and otherwise reports it still online |
| Polling.WaitForBotMessage | tests/functional/driver.py:101-107 | the message wait makes at most `maxwait` attempts and, for a pattern `re` compiles, fails only with the timeout error naming the caller's pattern or with a `KeyError` |
| Polling.WaitForBotMessageReturns | tests/functional/driver.py:101-107 | returns only once a scanned buffer holds a matching message, every earlier buffer having been read in full without a match |
| Polling.WaitForBotMessageRaises | tests/functional/driver.py:101-107 | for a pattern `re` compiles, raises either the timeout error naming the caller's pattern after `maxwait` attempts, or a `KeyError` from a buffer holding an event the scan cannot read |
| Polling.WaitForBotMessageReadable | tests/functional/driver.py:101-107 | when no key is missing, returns exactly when some attempt's buffer holds a matching message, and otherwise times out after `maxwait` attempts |
| Polling.WaitForBotDirectMessage | tests/functional/driver.py:62-63 | the direct-message wait makes at most sixty attempts over every buffered event, whatever its conversation, and, for a pattern `re` compiles, fails only with the timeout error or a `KeyError` |
| Polling.WaitForBotChannelMessage | tests/functional/driver.py:65-66 | the channel wait makes at most sixty attempts over every buffered event, whatever its conversation, and, for a pattern `re` compiles, fails only with the timeout error or a `KeyError` |
| Polling.DirectWaitUsesPattern | tests/functional/driver.py:62-63 | the direct-message wait succeeds only on a message matching the pattern as given |
| Polling.ChannelWaitRequiresMention | tests/functional/driver.py:65-66 | the channel wait succeeds only on a message matching the pattern behind the driver's escaped mention |
| Polling.WaitForFileUploaded | tests/functional/driver.py:89-95 | the file wait makes at most `maxwait` attempts, and fails only with the timeout error naming the file or with a `KeyError` |
| Polling.WaitForFileUploadedReturns | tests/functional/driver.py:89-95 | returns only once a scanned buffer holds the bot's file, every earlier buffer having been read in full without it |
| Polling.WaitForFileUploadedRaises | tests/functional/driver.py:89-95 | raises either the timeout error naming the file after `maxwait` attempts, or a `KeyError` from a buffer holding an event the scan cannot read |
| Polling.WaitForFileUploadedReadable | tests/functional/driver.py:89-95 | when no key is missing, returns exactly when some attempt's buffer holds the bot's file of that name, and otherwise times out after `maxwait` attempts |
| Polling.NoBotReplyAttempt | tests/functional/driver.py:81-85 | one poll never breaks out; it passes exactly when every buffered event has a type and none is a bot channel message; otherwise it raises at the first event that has no type or is a bot message, reporting the message text |
| Polling.EnsureNoChannelReplyRtm | tests/functional/driver.py:78-85 | the check makes at most `wait` polls and, having no `break`, returns only after making all of them |
| Polling.EnsureNoChannelReplyEnds | tests/functional/driver.py:78-87 | returns, after exactly `wait` polls, exactly when every polled buffer was quiet; otherwise raises at the first poll that was not, with what its scan raised |
| Polling.EnsureNoChannelReplyStopsEarly | tests/functional/driver.py:78-85 | the first poll that is not quiet ends the check at once, without making the remaining polls |

## Left out

- The REST variants (`_has_got_message`, `_has_uploaded_file`, `ensure_no_channel_reply_from_bot_api`) and the REST client are left out. They delegate to the platform's history and file listings, which are not part of this model.
- Bootstrap is left out: `start`, `_rtm_connect`'s roster lookup, `_fetch_users`, `_start_dm_channel`, `_join_test_channel` and `_invite_testbot_to_channel`. Only its result, the `Session` identities, is modelled.
- The websocket, the reader thread, the lock and `time.sleep` are left out. Each buffer operation is taken as atomic, as the lock makes it. A wait's elapsed time is its number of attempts times its sleep interval, and the model does not track it.
- `_start_ts` and `time.time()` are left out. Sending a message resets the watermark, but the realtime scans never read it.
- `re.match` is left out. The scans take the matcher as a parameter. Patterns made of ordinary characters and escaped punctuation get a reference semantics in `LiteralPattern`; patterns using other regular-expression operators get none.
- `re.error` is not modelled. The matcher is a total predicate, so it never raises. In the source, `re.match` raises `re.error` for a pattern that does not compile, such as `(`, at the first message event with text that the scan reaches. The message waits' statements about their errors therefore hold only for patterns `re` compiles.
- Default arguments are not modelled as defaults. The message waits' `maxwait=60` is the constant `DefaultMaxWait`, since their public wrappers never pass another value. `send_channel_message`'s `tobot=True, colon=True`, `ensure_no_channel_reply_from_bot_rtm`'s `wait=5` and `wait_for_file_uploaded`'s `maxwait=60` are ordinary parameters that every caller of the model supplies.
- `json.loads` is a parameter. Decoded events carry only the fields the driver reads. A JSON `null` or a non-string value in such a field is not modelled; a missing field is.
- `_is_testbot_online` is reduced to one observed flag per attempt. The presence query and the `slacker.presence.ACTIVE` value are not modelled, so a failing presence query is not modelled either.
- Text.FramesRoundTrip: holds only for a batch whose last frame ends in a character `rstrip` keeps. A batch ending in a blank or whitespace-terminated frame loses that trailing whitespace in the read.
- `send_direct_message` is left out. It posts the caller's text unchanged to the direct conversation, so there is nothing to format or check beyond the post itself.
