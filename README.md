# The History Reaper, modelled in Dafny

The History Reaper is a Discord bot that deletes old messages. An administrator
types `.reap <days>` in a channel, and from then on the bot deletes that
channel's messages once they are older than `<days>` days. `.unreap` stops it.
The bot stores the monitored channels in `channels.yaml` as a list of records
`{channel, server, config: {max_days, updated}}`.

Every three seconds, a periodic task (`on_tick`) walks that list. For each
record it resolves the channel. When Discord says the channel no longer exists,
it removes the record. When the record was changed `REAP_DELAY_SECONDS` (15)
seconds ago or less, it skips the record. Otherwise it fetches at most
`DELETE_MESSAGE_BATCH_LIMIT` (4) messages older than the window and tries to
delete each one, ignoring failed deletes.

The project has five modules:

- `Channels` (`channels.dfy`) models the registry of `channels.py`.
  - The file is the `file` field of a `Registry` object. Its value is YAML `null` or a list.
  - `Join` is the `join_channel` loop. It updates every matching record in place, or appends one record.
    It is proved against the specification function `Upserted`.
  - `Leave` is `leave_channel`. It uses the filter exactly as written:
    a record is kept when its channel differs **and** its server is the same.
  - `GetChannels` is `get_channels`.
- `Strings` (`strings.dfy`) models the parts of Python's string handling the handlers use:
  - `str.split(" ")` and `str.split(" ", n)`;
  - the pattern `^[0-9]{1,4}$` under `re.match`, where `$` also matches before a final newline;
  - `int()` applied to the matched digits.
- `Commands` (`commands.dfy`) models the command handlers.
  - `Dispatch` is the decision in `on_message`.
  - `ParseReap` and `ParseUnreap` are the argument checks of `on_join` and `on_leave`.
  - The methods `OnJoin`, `OnLeave` and `OnMessage` make the single registry call and pick the reply.
  - Replies are the values of the `Reply` datatype, not text.
- `Reaper` (`reaper.dfy`) models `on_tick`.
  - Discord is an input of type `World`. For each channel id it says one of three things:
    the channel is gone (`NotFound`), it cannot be reached (any other error), or it is live.
    A live channel comes with its history (newest first) and whether fetching that history raises.
    Each message says whether deleting it succeeds.
  - The tick returns a trace of `Prune`, `Skip`, `Fetch`, `Delete` and `Abort` actions,
    and it updates the registry.
  - `Tick` and `ReapChannel` are proved against the specification functions `TickSpec`, `Run` and `ChannelActions`.
- `Wrappers` (`wrappers.dfy`) holds `Option`.

Clock readings are integer seconds passed in as `now`. A day is 86400 seconds.

### Behaviour of the code worth knowing

- **Unreap filter.** `leave_channel` keeps only the records of the same server whose channel
  differs (channels.py:57-60). So `.unreap`, and a prune during a tick, also delete every record of
  every other server. They also answer `True` even when the channel itself was never listed.
  `LeaveDropsOtherServers` and `PrunedChannelAbsent` state this.
- **Errors that are not caught.** `on_tick` catches only `discord.errors.NotFound`
  (TheHistoryReaper.py:36). Any other error from resolving a channel or fetching its history
  leaves `on_tick`, and the records after it are not processed. The model ends the run with `Abort`.
- **Constants.** The delay is 15 seconds and a batch holds at most 4 messages (TheHistoryReaper.py:13-19).
- **"Already reaping" reply.** `join_channel` always returns `True`, so this reply
  (TheHistoryReaper.py:80-81) is never sent. `OnJoin` keeps the branch and proves that it is never taken.
- **Argument pattern.** `.reap 12` followed by a newline is accepted as 12 days. Python's `$` matches
  before a final newline, and `int()` strips it.

## Model

| member | source | states |
|---|---|---|
| `Channels.Registry.GetChannels` | channels.py:69-72 | the snapshot is the stored file as it stands, `None` included |
| `Channels.Registry.Join` | channels.py:10-46 | always answers `True`; the written list is `Upserted` of the loaded list, with `None` read as `[]`; the loop invariant keeps the visited prefix reconfigured and the rest untouched |
| `Channels.Reconfigured` | channels.py:20-27 | the in-place update pass keeps the list length |
| `Channels.ReconfiguredStep` | channels.py:20-27 | visiting one more record appends that record, reconfigured if it matches, to the visited prefix |
| `Channels.HasKeyStep` | channels.py:19-28 | after one more record, `found` holds iff it held before or that record matches the pair |
| `Channels.ReconfiguredWithoutKey` | channels.py:20-31 | when no record matches, the update pass leaves the list as it was |
| `Channels.UpsertReconfiguresInPlace` | channels.py:19-28 | if the pair is listed, the length is unchanged and every matching record now has the new `max_days` and `updated` |
| `Channels.UpsertAppendsWhenAbsent` | channels.py:31-41 | if the pair is not listed, exactly one record with the given channel, server and config is appended at the end, and all prior records are kept |
| `Channels.UpsertLeavesOthers` | channels.py:20-27 | records of other (server, channel) pairs come out exactly as they went in |
| `Channels.UpsertEstablishes` | channels.py:18-41 | afterwards the pair is listed and every record for it carries the new config |
| `Channels.UpsertKeepsUnique` | channels.py:18-41 | at most one record per (server, channel) before implies the same after |
| `Channels.Registry.Leave` | channels.py:49-65 | the written list is the loaded one (`None` read as `[]`) filtered by `channel != c and server == s`; answers `True` iff some record fails that filter |
| `Channels.Remaining` | channels.py:57-60 | the filter never lengthens the list |
| `Channels.RemainingMembers` | channels.py:57-60 | a record survives iff it was listed and passes the filter as written |
| `Channels.RemainingMultiplicity` | channels.py:57-60 | each record passing the filter survives exactly as many times as it was listed, and every other record not at all |
| `Channels.RemainingIsSubsequence` | channels.py:57-60 | the survivors keep their original relative order |
| `Channels.RemovedIffSomeDropped` | channels.py:57-65 | the list gets shorter iff some listed record fails the filter |
| `Channels.LeaveAbsentInSameServer` | channels.py:57-65 | if every record is of the same server and none is for the channel, the list is unchanged (so the answer is `False`) |
| `Channels.LeaveDropsOtherServers` | channels.py:57-60 | a record of another server never survives, and the list gets shorter |
| `Channels.ChannelGoneAfterLeave` | channels.py:57-60 | afterwards no record for the channel is left, and every record is of the given server |
| `Channels.LeaveKeepsUnique` | channels.py:57-60 | at most one record per pair before implies the same after |
| `Strings.Split` | TheHistoryReaper.py:105 | `split(" ")` gives one more piece than there are spaces, and no piece holds a space |
| `Strings.JoinSplit` | TheHistoryReaper.py:88 | joining the pieces of `split(" ")` with spaces gives back the text |
| `Strings.SplitStartsWith` | TheHistoryReaper.py:105-106 | for a word without spaces, the split has at least two pieces and starts with the word iff the text starts with the word and a space |
| `Strings.SplitSingle` | TheHistoryReaper.py:88-89 | the split has one piece iff the text has no space, and then that piece is the text |
| `Strings.SplitAtMost` | TheHistoryReaper.py:67 | `split(" ", n)` gives between 1 and n + 1 pieces, and no piece but the last holds a space, so the splits are made at the first spaces |
| `Strings.SplitAtMostLength` | TheHistoryReaper.py:67 | `split(" ", n)` gives min(number of spaces, n) + 1 pieces |
| `Strings.JoinSplitAtMost` | TheHistoryReaper.py:67 | joining the pieces of `split(" ", n)` with spaces gives back the text |
| `Strings.MatchesDaysPattern` | TheHistoryReaper.py:68 | `re.match(r"^[0-9]{1,4}$", t)` succeeds iff `t` is 1 to 4 ASCII digits, or 1 to 4 ASCII digits followed by one final newline |
| `Strings.DecimalValue` | TheHistoryReaper.py:69 | `int()` of k digits is below 10^k |
| `Strings.DecimalRoundTrip` | TheHistoryReaper.py:69 | `int()` reads back the decimal spelling of every natural number |
| `Commands.Dispatch` | TheHistoryReaper.py:99-109 | only messages from an administrator other than the bot are handed to a handler |
| `Commands.DispatchReap` | TheHistoryReaper.py:105-107 | `on_join` runs iff the author is an administrator, not the bot, and the text starts with `.reap ` (at least two pieces) |
| `Commands.DispatchUnreap` | TheHistoryReaper.py:105-109 | `on_leave` runs iff the author is an administrator, not the bot, and the text is `.unreap` alone or followed by a space |
| `Commands.ParseReap` | TheHistoryReaper.py:67-69 | an accepted window is between 0 and 9999 days |
| `Commands.ParseUnreap` | TheHistoryReaper.py:88-89 | `on_leave` accepts its argument iff the text holds no space |
| `Commands.ReapCommandAccepted` | TheHistoryReaper.py:67-69 | a message sets `d` days iff it is `.reap `, then 1 to 4 digits spelling `d`, then at most a final newline |
| `Commands.ReapAcceptsEveryWindow` | TheHistoryReaper.py:67-69 | every window from 0 to 9999, written in decimal after `.reap `, is dispatched and accepted with that value |
| `Commands.UnreapCommandAccepted` | TheHistoryReaper.py:88-90 | `leave_channel` is called iff the message is exactly `.unreap` |
| `Commands.OnJoin` | TheHistoryReaper.py:66-84 | an accepted window is recorded by `join_channel` and announced; otherwise a usage reply is sent and the registry is untouched; "already reaping" is never replied |
| `Commands.OnLeave` | TheHistoryReaper.py:87-96 | a lone `.unreap` runs `leave_channel`, and the reply says whether a record was dropped; otherwise a usage reply is sent and the registry is untouched |
| `Commands.OnMessage` | TheHistoryReaper.py:99-109 | a non-command gets no reply and leaves the registry as it was; `.reap` and `.unreap` behave as `OnJoin` and `OnLeave` |
| `Reaper.Eligible` | TheHistoryReaper.py:41-44 | a record changed `updated` seconds ago is reaped only strictly after `updated + 15`: never at 15 seconds or less, always from 16 whole seconds on |
| `Reaper.EligibleStays` | TheHistoryReaper.py:41-44 | once the delay has passed for a record, it stays passed at every later time |
| `Reaper.Cutoff` | TheHistoryReaper.py:45-46 | the cutoff lies exactly `max_days` days of 86400 seconds before now, so never after now for a non-negative window |
| `Reaper.CutoffMeansAge` | TheHistoryReaper.py:45-51 | a message is before the cutoff iff it is more than `max_days` days old |
| `Reaper.OlderThan` | TheHistoryReaper.py:48-51 | a message is a candidate iff it is in the history and created strictly before the cutoff |
| `Reaper.OlderThanAll` | TheHistoryReaper.py:48-51 | when every message is before the cutoff, the candidates are the whole history |
| `Reaper.OlderThanAppend` | TheHistoryReaper.py:48-51 | the candidates keep history order: filtering two parts of a history gives the two filtered parts one after the other |
| `Reaper.Batch` | TheHistoryReaper.py:48-51 | the fetched batch is the first `limit` candidates, the newest as the history is newest first, or all candidates when there are fewer than `limit` |
| `Reaper.AttemptsAt` | TheHistoryReaper.py:55-60 | each message of the batch gets exactly one delete attempt, at its own position, whatever the earlier attempts gave |
| `Reaper.AttemptsAreDeletes` | TheHistoryReaper.py:55-60 | the delete pass makes only delete attempts, one per message, each for a message of the batch |
| `Reaper.DeletePass` | TheHistoryReaper.py:55-60 | the inner loop's trace is one attempt per batch message, in batch order |
| `Reaper.ReapChannel` | TheHistoryReaper.py:34-63 | one record's processing yields `ChannelActions`; it stops the tick exactly when an uncaught error occurs, and it prunes the registry exactly when the channel is gone |
| `Reaper.Tick` | TheHistoryReaper.py:28-63 | the trace and the new registry are those of `TickSpec`; when the client is not ready, or the list is empty or `None`, nothing happens |
| `Reaper.ChannelDeletesBounded` | TheHistoryReaper.py:19 | a record gets at most `DELETE_MESSAGE_BATCH_LIMIT` = 4 delete attempts per tick |
| `Reaper.ReapsOnlyAfterDelay` | TheHistoryReaper.py:41-51 | a history fetch returns (a `Fetch` action) iff the channel resolves, the delay has strictly passed (`now > updated + 15`) and the fetch does not raise; it asks for at most 4 messages before `now - max_days * 86400` |
| `Reaper.ChannelDeletesExactly` | TheHistoryReaper.py:48-60 | a live record whose delay has passed and whose fetch returns gets exactly min(number of old messages, 4) delete attempts |
| `Reaper.OldMessagesAttempted` | TheHistoryReaper.py:48-60 | under the same conditions, each of the 4 newest old messages gets its delete attempt, and when there are at most 4 old messages every one of them does |
| `Reaper.DeletesOnlyOldMessages` | TheHistoryReaper.py:41-60 | every delete attempt is made after the delay, for a message of that channel created strictly before `now - max_days * 86400` |
| `Reaper.RunUpToAbort` | TheHistoryReaper.py:32-60 | the trace is each record's actions, in list order, up to and including the first record that raises an uncaught error; a prune, a skip or a failed delete never stops later records |
| `Reaper.RunDeletesBounded` | TheHistoryReaper.py:32-60 | a tick makes at most 4 delete attempts per listed record |
| `Reaper.TickDeletesBounded` | TheHistoryReaper.py:28-60 | a whole tick makes at most 4 delete attempts per record of the stored list |
| `Reaper.RunOnlyPrunes` | TheHistoryReaper.py:32-39 | a tick only removes records, and it leaves the file unchanged when no listed channel is gone |
| `Reaper.PrunedChannelAbsent` | TheHistoryReaper.py:34-39 | once a gone channel's record is reached, no record for that channel is left afterwards, and (through `leave_channel`'s filter) no record of any other server either |
| `Reaper.SampleChannelDeletes` | TheHistoryReaper.py:41-60 | a 7-day record changed 70 s ago, with three old messages, fetches all three and tries to delete each |
| `Reaper.SampleTickDeletes` | TheHistoryReaper.py:41-60 | a 7-day record changed 70 s ago, with three old messages, has all three deleted after one fetch, and nothing is pruned |
| `Reaper.SampleTickSkips` | TheHistoryReaper.py:41-44 | the same record changed 10 s ago is only skipped |

## Left out

- Discord transport: `fetch_channel`, `history().flatten()`, `message.delete`, `channel.send`,
  `permissions_in` and `client.run` are inputs (`World`, `isAdmin`, `fromSelf`) or outcomes
  (`Action`, `Reply`). The reply texts, the channel names inside them and the "s" plural are not modelled.
- YAML loading and dumping, and the file `channels.yaml`, are the `Stored` value held by a `Registry` object.
  Records that lack a key, or hold non-integer values, are not modelled.
- `asyncio.Lock`, the `tasks.loop` scheduling every 3 seconds (`DELETE_MESSAGE_BATCH_FREQUENCY`), and async/await
  are not modelled. Each operation is one atomic step. The lock makes the file operations atomic,
  but a tick's snapshot can go stale while the tick runs; the model captures only the snapshot.
- What `discord.ext.tasks` does after an error leaves `on_tick` is not modelled. The model ends that tick with `Abort`.
- `datetime` and float timestamps are not modelled. Times are whole seconds, and the local-time and UTC
  readings of the clock within one tick are the same `now`. A `timedelta` overflow for huge windows is
  not modelled either; the bot's own callers only pass 0 to 9999.
- `join_channel`'s default `max_days=99999999` is not modelled, because every caller passes a value.
- `join_channel` reads the clock once per matching record. The model uses one `now` for the whole call.
- Within one tick, the modelled history does not shrink after successful deletes. This matters
  only if the same channel id appears in two records; then a second fetch in the same tick would see the deletions.
- `print`/`traceback` logging, `load_dotenv`/`TOKEN` and the `on_ready` greeting are not modelled.
