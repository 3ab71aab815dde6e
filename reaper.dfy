/**
 One run of the periodic task `on_tick`: for every record of the registry, in
 order, resolve the channel (pruning the record when the channel is gone),
 wait out the delay after the last configuration change, fetch a bounded
 batch of messages older than the window and try to delete each of them.

 The chat platform is an input: what resolving each channel id gives, each
 channel's history, and whether each delete succeeds. The run produces the
 trace of what the bot did and leaves the registry with the pruned records gone.
 */
module Reaper {
  import opened Channels

  /** Seconds to wait after a configuration change before reaping. */
  const REAP_DELAY_SECONDS := 15

  /** Most messages fetched, and so deleted, per channel per tick. */
  const DELETE_MESSAGE_BATCH_LIMIT: nat := 4

  const SECONDS_PER_DAY := 86400

  /** A message of a channel: its id, its creation time, and whether deleting it succeeds. */
  datatype Message = Message(id: int, created: int, deletable: bool)

  /** What the platform gives for one channel id during the tick. */
  datatype Upstream =
    | Gone                                            // fetch_channel raises NotFound
    | Unreachable                                     // fetch_channel raises any other error
    | Live(history: seq<Message>, historyFails: bool) // history newest first; whether fetching it raises

  type World = map<int, Upstream>

  /** `fetch_channel(channel)`: an id the platform does not know is gone. */
  function Resolve(world: World, channel: int): Upstream
  {
    if channel in world then world[channel] else Gone
  }

  /** One step of the bot, in the order taken. */
  datatype Action =
    | Prune(server: int, channel: int)              // leave_channel after NotFound
    | Skip(channel: int)                            // configuration changed too recently
    | Fetch(channel: int, before: int, limit: nat)  // history(limit, before) requested
    | Delete(channel: int, message: int, deleted: bool)
    | Abort(channel: int)                           // an uncaught error ends the tick here

  /**
   The delay gate of TheHistoryReaper.py:41-44: reaping starts only strictly
   after `updated + REAP_DELAY_SECONDS`, which in whole seconds is 16 seconds
   after the change.
   */
  predicate Eligible(config: Config, now: int)
    ensures now <= config.updated + REAP_DELAY_SECONDS ==> !Eligible(config, now)
    ensures now >= config.updated + REAP_DELAY_SECONDS + 1 ==> Eligible(config, now)
  {
    now > config.updated + REAP_DELAY_SECONDS
  }

  /** `now - timedelta(days=max_days)`, in seconds. */
  function Cutoff(config: Config, now: int): (r: int)
    ensures now - r == config.maxDays * SECONDS_PER_DAY
    ensures config.maxDays >= 0 ==> r <= now
  {
    now - config.maxDays * SECONDS_PER_DAY
  }

  /** Once a record's delay has passed, it stays passed at every later time. */
  lemma EligibleStays(config: Config, now: int, later: int)
    requires Eligible(config, now) && now <= later
    ensures Eligible(config, later)
  {
  }

  /** A message is before the cutoff exactly when it is more than `max_days` whole days old. */
  lemma CutoffMeansAge(config: Config, now: int, created: int)
    ensures created < Cutoff(config, now) <==> now - created > config.maxDays * SECONDS_PER_DAY
  {
  }

  /** The messages of `history` created strictly before `cutoff`, in history order. */
  function OlderThan(history: seq<Message>, cutoff: int): (r: seq<Message>)
    ensures |r| <= |history|
    ensures forall m :: m in r ==> m in history && m.created < cutoff
    ensures forall m :: m in history && m.created < cutoff ==> m in r
  {
    if history == [] then []
    else
      assert forall m :: m in history ==> m == history[0] || m in history[1..];
      (if history[0].created < cutoff then [history[0]] else []) + OlderThan(history[1..], cutoff)
  }

  /** When every message of `history` is older than `cutoff`, the filter keeps all of it. */
  lemma {:induction false} OlderThanAll(history: seq<Message>, cutoff: int)
    requires forall i :: 0 <= i < |history| ==> history[i].created < cutoff
    ensures OlderThan(history, cutoff) == history
  {
    if history != [] {
      OlderThanAll(history[1..], cutoff);
      assert history == [history[0]] + history[1..];
    }
  }

  /** Filtering a history in two parts gives the two filtered parts, in the same order. */
  lemma {:induction false} OlderThanAppend(a: seq<Message>, b: seq<Message>, cutoff: int)
    ensures OlderThan(a + b, cutoff) == OlderThan(a, cutoff) + OlderThan(b, cutoff)
  {
    if a != [] {
      assert (a + b)[0] == a[0];
      assert (a + b)[1..] == a[1..] + b;
      OlderThanAppend(a[1..], b, cutoff);
    } else {
      assert a + b == b;
    }
  }

  /**
   `history(limit=limit, before=cutoff).flatten()`: the first `limit` messages
   older than `cutoff` (the newest ones, as the history is newest first), or
   all of them when there are fewer.
   */
  function Batch(history: seq<Message>, cutoff: int, limit: nat): (r: seq<Message>)
    ensures |r| <= limit
    ensures forall m :: m in r ==> m in history && m.created < cutoff
    ensures |r| <= |OlderThan(history, cutoff)| && r == OlderThan(history, cutoff)[..|r|]
    ensures |r| < limit ==> r == OlderThan(history, cutoff)
  {
    var older := OlderThan(history, cutoff);
    if |older| <= limit then older else older[..limit]
  }

  /** One delete attempt per message of the batch, in batch order. */
  function Attempts(channel: int, batch: seq<Message>): seq<Action>
  {
    if batch == [] then []
    else [Delete(channel, batch[0].id, batch[0].deletable)] + Attempts(channel, batch[1..])
  }

  /**
   Every message of the batch gets exactly one delete attempt, at its own
   position, whatever the attempts before it gave.
   */
  lemma {:induction false} AttemptsAt(channel: int, batch: seq<Message>, i: int)
    requires 0 <= i < |batch|
    ensures |Attempts(channel, batch)| == |batch|
    ensures Attempts(channel, batch)[i] == Delete(channel, batch[i].id, batch[i].deletable)
  {
    if i > 0 {
      AttemptsAt(channel, batch[1..], i - 1);
    } else if |batch| > 1 {
      AttemptsAt(channel, batch[1..], 0);
    }
  }

  /** The delete pass yields delete attempts and nothing else, one for each message. */
  lemma {:induction false} AttemptsAreDeletes(channel: int, batch: seq<Message>)
    ensures |Attempts(channel, batch)| == |batch|
    ensures forall a :: a in Attempts(channel, batch) ==>
      a.Delete? && a.channel == channel && exists m :: m in batch && a.message == m.id
  {
    if batch != [] {
      AttemptsAreDeletes(channel, batch[1..]);
      assert forall m :: m in batch[1..] ==> m in batch;
    }
  }

  /**
   The inner loop of `on_tick`: `message.delete()` for each message, the
   failure of one being caught so that the next is still tried.
   */
  method DeletePass(channel: int, batch: seq<Message>) returns (attempts: seq<Action>)
    ensures attempts == Attempts(channel, batch)
  {
    attempts := [];
    for i := 0 to |batch|
      invariant attempts + Attempts(channel, batch[i..]) == Attempts(channel, batch)
    {
      assert batch[i..][1..] == batch[i + 1..];
      var deleted := batch[i].deletable;
      attempts := attempts + [Delete(channel, batch[i].id, deleted)];
    }
    assert batch[|batch|..] == [];
  }

  /** What one record contributes to the trace of a tick. */
  function ChannelActions(e: Entry, world: World, now: int): seq<Action>
  {
    match Resolve(world, e.channel)
    case Gone => [Prune(e.server, e.channel)]
    case Unreachable => [Abort(e.channel)]
    case Live(history, historyFails) =>
      if !Eligible(e.config, now) then [Skip(e.channel)]
      else if historyFails then [Abort(e.channel)]
      else
        var before := Cutoff(e.config, now);
        [Fetch(e.channel, before, DELETE_MESSAGE_BATCH_LIMIT)]
          + Attempts(e.channel, Batch(history, before, DELETE_MESSAGE_BATCH_LIMIT))
  }

  /** Processing this record raises an error `on_tick` does not catch. */
  predicate Aborts(e: Entry, world: World, now: int)
  {
    match Resolve(world, e.channel)
    case Gone => false
    case Unreachable => true
    case Live(_, historyFails) => Eligible(e.config, now) && historyFails
  }

  /** The file after one record is processed: pruned with `leave_channel` when its channel is gone. */
  function AfterRecord(e: Entry, world: World, registry: Stored): Stored
  {
    if Resolve(world, e.channel).Gone? then Pruned(registry, e.server, e.channel) else registry
  }

  datatype TickResult = TickResult(trace: seq<Action>, registry: Stored)

  /**
   The loop of `on_tick` over the list read at its start, from `registry` as
   the file stands: records are taken in order, a gone channel's record is
   pruned with `leave_channel`, and the first uncaught error ends the run.
   */
  function Run(entries: seq<Entry>, registry: Stored, world: World, now: int): TickResult
  {
    if entries == [] then TickResult([], registry)
    else
      var e := entries[0];
      var actions := ChannelActions(e, world, now);
      if Aborts(e, world, now) then TickResult(actions, registry)
      else
        var next := AfterRecord(e, world, registry);
        var rest := Run(entries[1..], next, world, now);
        TickResult(actions + rest.trace, rest.registry)
  }

  /** One step of `Run`: the first record's actions, then the rest of the list unless it aborted. */
  lemma RunStep(entries: seq<Entry>, registry: Stored, world: World, now: int)
    requires entries != []
    ensures Aborts(entries[0], world, now) ==>
      Run(entries, registry, world, now) == TickResult(ChannelActions(entries[0], world, now), registry)
    ensures !Aborts(entries[0], world, now) ==>
      var e := entries[0];
      var next := AfterRecord(e, world, registry);
      Run(entries, registry, world, now).trace == ChannelActions(e, world, now) + Run(entries[1..], next, world, now).trace &&
      Run(entries, registry, world, now).registry == Run(entries[1..], next, world, now).registry
  {
  }

  /** `on_tick`: nothing happens before the client is ready or when the list is empty or `None`. */
  function TickSpec(ready: bool, registry: Stored, world: World, now: int): TickResult
  {
    if ready && Loaded(registry) != [] then Run(Loaded(registry), registry, world, now)
    else TickResult([], registry)
  }

  /**
   The body of `on_tick`'s loop for one record: resolve, prune on NotFound,
   gate on the delay, fetch the batch and run the delete pass. `aborted`
   tells whether an uncaught error escaped.
   */
  method ReapChannel(registry: Registry, e: Entry, world: World, now: int) returns (actions: seq<Action>, aborted: bool)
    modifies registry
    ensures actions == ChannelActions(e, world, now)
    ensures aborted == Aborts(e, world, now)
    ensures registry.file == AfterRecord(e, world, old(registry.file))
  {
    aborted := false;
    match Resolve(world, e.channel) {
      case Gone =>
        var removed := registry.Leave(e.server, e.channel);
        actions := [Prune(e.server, e.channel)];
      case Unreachable =>
        actions := [Abort(e.channel)];
        aborted := true;
      case Live(history, historyFails) =>
        if Eligible(e.config, now) {
          var before := Cutoff(e.config, now);
          if historyFails {
            actions := [Abort(e.channel)];
            aborted := true;
          } else {
            var batch := Batch(history, before, DELETE_MESSAGE_BATCH_LIMIT);
            var attempts := DeletePass(e.channel, batch);
            actions := [Fetch(e.channel, before, DELETE_MESSAGE_BATCH_LIMIT)] + attempts;
          }
        } else {
          actions := [Skip(e.channel)];
        }
    }
  }

  /** `on_tick` against the registry object, with the platform as `world` and the clock at `now`. */
  method Tick(registry: Registry, ready: bool, world: World, now: int) returns (trace: seq<Action>)
    modifies registry
    ensures trace == TickSpec(ready, old(registry.file), world, now).trace
    ensures registry.file == TickSpec(ready, old(registry.file), world, now).registry
    ensures !ready || Loaded(old(registry.file)) == [] ==> trace == [] && registry.file == old(registry.file)
  {
    trace := [];
    if !ready {
      return;
    }
    var snapshot := registry.GetChannels();
    var entries := Loaded(snapshot);
    if entries == [] {
      return;
    }
    ghost var goal := Run(entries, snapshot, world, now);
    var i := 0;
    while i < |entries|
      invariant 0 <= i <= |entries|
      invariant trace + Run(entries[i..], registry.file, world, now).trace == goal.trace
      invariant Run(entries[i..], registry.file, world, now).registry == goal.registry
      decreases |entries| - i
    {
      ghost var file := registry.file;
      var e := entries[i];
      RunStep(entries[i..], file, world, now);
      assert entries[i..][0] == e && entries[i..][1..] == entries[i + 1..];
      var actions, aborted := ReapChannel(registry, e, world, now);
      ghost var rest := Run(entries[i + 1..], registry.file, world, now);
      if aborted {
        trace := trace + actions;
        return;
      }
      assert trace + (actions + rest.trace) == (trace + actions) + rest.trace;
      trace := trace + actions;
      i := i + 1;
    }
    assert entries[i..] == [];
  }

  // ---------------------------------------------------------------------------
  // Properties of one record's processing.

  /** Number of delete attempts in a trace. */
  function DeleteCount(trace: seq<Action>): nat
  {
    if trace == [] then 0 else (if trace[0].Delete? then 1 else 0) + DeleteCount(trace[1..])
  }

  lemma {:induction false} DeleteCountAppend(a: seq<Action>, b: seq<Action>)
    ensures DeleteCount(a + b) == DeleteCount(a) + DeleteCount(b)
  {
    if a == [] {
      assert a + b == b;
    } else {
      assert (a + b)[0] == a[0];
      assert (a + b)[1..] == a[1..] + b;
      DeleteCountAppend(a[1..], b);
    }
  }

  lemma {:induction false} AttemptsDeleteCount(channel: int, batch: seq<Message>)
    ensures DeleteCount(Attempts(channel, batch)) == |batch|
  {
    if batch != [] {
      AttemptsDeleteCount(channel, batch[1..]);
      assert Attempts(channel, batch)[1..] == Attempts(channel, batch[1..]);
    }
  }

  /** A record costs at most `DELETE_MESSAGE_BATCH_LIMIT` delete attempts per tick. */
  lemma ChannelDeletesBounded(e: Entry, world: World, now: int)
    ensures DeleteCount(ChannelActions(e, world, now)) <= DELETE_MESSAGE_BATCH_LIMIT
  {
    match Resolve(world, e.channel)
    case Gone =>
    case Unreachable =>
    case Live(history, historyFails) =>
      if Eligible(e.config, now) && !historyFails {
        var before := Cutoff(e.config, now);
        var batch := Batch(history, before, DELETE_MESSAGE_BATCH_LIMIT);
        DeleteCountAppend([Fetch(e.channel, before, DELETE_MESSAGE_BATCH_LIMIT)], Attempts(e.channel, batch));
        AttemptsDeleteCount(e.channel, batch);
      }
  }

  /**
   A record whose channel resolves, whose delay has passed and whose history
   can be fetched gets one delete attempt per old message, up to
   `DELETE_MESSAGE_BATCH_LIMIT`: never fewer.
   */
  lemma ChannelDeletesExactly(e: Entry, world: World, now: int)
    requires Resolve(world, e.channel).Live? && !Resolve(world, e.channel).historyFails
    requires Eligible(e.config, now)
    ensures var older := OlderThan(Resolve(world, e.channel).history, Cutoff(e.config, now));
      DeleteCount(ChannelActions(e, world, now)) ==
        if |older| < DELETE_MESSAGE_BATCH_LIMIT then |older| else DELETE_MESSAGE_BATCH_LIMIT
  {
    var history := Resolve(world, e.channel).history;
    var before := Cutoff(e.config, now);
    var batch := Batch(history, before, DELETE_MESSAGE_BATCH_LIMIT);
    DeleteCountAppend([Fetch(e.channel, before, DELETE_MESSAGE_BATCH_LIMIT)], Attempts(e.channel, batch));
    AttemptsDeleteCount(e.channel, batch);
  }

  /**
   Under the same conditions, the newest `DELETE_MESSAGE_BATCH_LIMIT` old
   messages each get their delete attempt; when there are no more old
   messages than that, every one of them does.
   */
  lemma OldMessagesAttempted(e: Entry, world: World, now: int)
    requires Resolve(world, e.channel).Live? && !Resolve(world, e.channel).historyFails
    requires Eligible(e.config, now)
    ensures var older := OlderThan(Resolve(world, e.channel).history, Cutoff(e.config, now));
      forall i :: 0 <= i < |older| && i < DELETE_MESSAGE_BATCH_LIMIT ==>
        Delete(e.channel, older[i].id, older[i].deletable) in ChannelActions(e, world, now)
    ensures var history := Resolve(world, e.channel).history;
      |OlderThan(history, Cutoff(e.config, now))| <= DELETE_MESSAGE_BATCH_LIMIT ==>
        forall m :: m in history && m.created < Cutoff(e.config, now) ==>
          Delete(e.channel, m.id, m.deletable) in ChannelActions(e, world, now)
  {
    var history := Resolve(world, e.channel).history;
    var before := Cutoff(e.config, now);
    var older := OlderThan(history, before);
    var batch := Batch(history, before, DELETE_MESSAGE_BATCH_LIMIT);
    var actions := ChannelActions(e, world, now);
    assert actions == [Fetch(e.channel, before, DELETE_MESSAGE_BATCH_LIMIT)] + Attempts(e.channel, batch);
    forall i | 0 <= i < |older| && i < DELETE_MESSAGE_BATCH_LIMIT
      ensures Delete(e.channel, older[i].id, older[i].deletable) in actions
    {
      assert |batch| == DELETE_MESSAGE_BATCH_LIMIT || batch == older;
      assert batch[i] == older[i];
      AttemptsAt(e.channel, batch, i);
      assert actions[i + 1] == Delete(e.channel, older[i].id, older[i].deletable);
    }
    if |older| <= DELETE_MESSAGE_BATCH_LIMIT {
      forall m | m in history && m.created < before
        ensures Delete(e.channel, m.id, m.deletable) in actions
      {
        var i :| 0 <= i < |older| && older[i] == m;
        assert Delete(e.channel, older[i].id, older[i].deletable) in actions;
      }
    }
  }

  /**
   A history request is made for a record exactly when its channel resolves,
   its history can be fetched and the delay after its last change has strictly
   passed; the request asks for at most `DELETE_MESSAGE_BATCH_LIMIT` messages
   created before `now` minus the window.
   */
  lemma ReapsOnlyAfterDelay(e: Entry, world: World, now: int)
    ensures (exists a :: a in ChannelActions(e, world, now) && a.Fetch?) <==>
      (Resolve(world, e.channel).Live? && !Resolve(world, e.channel).historyFails &&
       now > e.config.updated + REAP_DELAY_SECONDS)
    ensures forall a :: a in ChannelActions(e, world, now) && a.Fetch? ==>
      a.channel == e.channel && a.before == now - e.config.maxDays * SECONDS_PER_DAY &&
      a.limit == DELETE_MESSAGE_BATCH_LIMIT
  {
    match Resolve(world, e.channel)
    case Gone =>
    case Unreachable =>
    case Live(history, historyFails) =>
      if Eligible(e.config, now) && !historyFails {
        var before := Cutoff(e.config, now);
        var attempts := Attempts(e.channel, Batch(history, before, DELETE_MESSAGE_BATCH_LIMIT));
        AttemptsAreDeletes(e.channel, Batch(history, before, DELETE_MESSAGE_BATCH_LIMIT));
        assert ChannelActions(e, world, now)[0].Fetch?;
      }
  }

  /**
   Every delete attempt of a record is for a message of its channel's history
   created strictly before `now` minus the window, and happens only once the
   delay after the record's last change has passed.
   */
  lemma DeletesOnlyOldMessages(e: Entry, world: World, now: int)
    ensures forall a :: a in ChannelActions(e, world, now) && a.Delete? ==>
      Eligible(e.config, now) && Resolve(world, e.channel).Live? && a.channel == e.channel &&
      exists m :: m in Resolve(world, e.channel).history && m.id == a.message &&
        m.created < now - e.config.maxDays * SECONDS_PER_DAY
  {
    match Resolve(world, e.channel)
    case Gone =>
    case Unreachable =>
    case Live(history, historyFails) =>
      if Eligible(e.config, now) && !historyFails {
        var before := Cutoff(e.config, now);
        AttemptsAreDeletes(e.channel, Batch(history, before, DELETE_MESSAGE_BATCH_LIMIT));
      }
  }

  // ---------------------------------------------------------------------------
  // Properties of the whole tick.

  /** The actions of the records of `entries`, one record after the other. */
  function AllActions(entries: seq<Entry>, world: World, now: int): seq<Action>
  {
    if entries == [] then [] else ChannelActions(entries[0], world, now) + AllActions(entries[1..], world, now)
  }

  /**
   The records are processed one after the other, in list order, each to its
   end: a prune, a skip or a failed delete never keeps the next record from
   being processed. Only an uncaught error (at record `k`) ends the tick, and
   then the records after it are not looked at.
   */
  lemma {:induction false} RunUpToAbort(entries: seq<Entry>, registry: Stored, world: World, now: int, k: nat)
    requires k <= |entries|
    requires forall j :: 0 <= j < k ==> !Aborts(entries[j], world, now)
    requires k < |entries| ==> Aborts(entries[k], world, now)
    ensures Run(entries, registry, world, now).trace ==
      AllActions(entries[..if k < |entries| then k + 1 else k], world, now)
  {
    var n := if k < |entries| then k + 1 else k;
    if entries != [] {
      var e := entries[0];
      assert entries[..n][0] == e;
      assert entries[..n][1..] == entries[1..][..n - 1];
      if k == 0 {
        assert AllActions(entries[..n][1..], world, now) == [];
      } else {
        var next := AfterRecord(e, world, registry);
        RunUpToAbort(entries[1..], next, world, now, k - 1);
      }
    }
  }

  /** A tick makes at most `DELETE_MESSAGE_BATCH_LIMIT` delete attempts per record. */
  lemma {:induction false} RunDeletesBounded(entries: seq<Entry>, registry: Stored, world: World, now: int)
    ensures DeleteCount(Run(entries, registry, world, now).trace) <= DELETE_MESSAGE_BATCH_LIMIT * |entries|
  {
    if entries != [] {
      var e := entries[0];
      ChannelDeletesBounded(e, world, now);
      if !Aborts(e, world, now) {
        var next := AfterRecord(e, world, registry);
        RunDeletesBounded(entries[1..], next, world, now);
        DeleteCountAppend(ChannelActions(e, world, now), Run(entries[1..], next, world, now).trace);
      }
    }
  }

  lemma TickDeletesBounded(ready: bool, registry: Stored, world: World, now: int)
    ensures DeleteCount(TickSpec(ready, registry, world, now).trace) <= DELETE_MESSAGE_BATCH_LIMIT * |Loaded(registry)|
  {
    RunDeletesBounded(Loaded(registry), registry, world, now);
  }

  /**
   A tick only ever removes records from the file, and when no listed channel
   is gone it leaves the file exactly as it was.
   */
  lemma {:induction false} RunOnlyPrunes(entries: seq<Entry>, registry: Stored, world: World, now: int)
    ensures forall x :: x in Loaded(Run(entries, registry, world, now).registry) ==> x in Loaded(registry)
    ensures (forall e :: e in entries ==> !Resolve(world, e.channel).Gone?) ==>
      Run(entries, registry, world, now).registry == registry
  {
    if entries != [] {
      var e := entries[0];
      if !Aborts(e, world, now) {
        var next := AfterRecord(e, world, registry);
        RunOnlyPrunes(entries[1..], next, world, now);
        RemainingMembers(Loaded(registry), e.server, e.channel);
        assert forall x :: x in entries[1..] ==> x in entries;
      }
    }
  }

  /**
   When record `k`'s channel is gone and the tick gets that far, no record for
   that channel is left afterwards. As `leave_channel` is written, neither is
   any record of another server.
   */
  lemma {:induction false} PrunedChannelAbsent(entries: seq<Entry>, registry: Stored, world: World, now: int, k: nat)
    requires k < |entries|
    requires forall j :: 0 <= j < k ==> !Aborts(entries[j], world, now)
    requires Resolve(world, entries[k].channel).Gone?
    ensures forall x :: x in Loaded(Run(entries, registry, world, now).registry) ==>
      x.channel != entries[k].channel && x.server == entries[k].server
  {
    var e := entries[0];
    var next := AfterRecord(e, world, registry);
    if k == 0 {
      RunOnlyPrunes(entries[1..], next, world, now);
      RemainingMembers(Loaded(registry), e.server, e.channel);
    } else {
      PrunedChannelAbsent(entries[1..], next, world, now, k - 1);
    }
  }

  // ---------------------------------------------------------------------------
  // Two ticks worked through: a record for channel 10 of server 1, keeping
  // 7 days, last changed at time `t`; three messages older than the window.

  function SampleEntry(t: int): Entry { Entry(10, 1, Config(7, t)) }

  function SampleWorld(t: int): World
  {
    var stale := t - 8 * SECONDS_PER_DAY;
    map[10 := Live([Message(1, stale, true), Message(2, stale - 1, true), Message(3, stale - 2, true)], false)]
  }

  /** 70 seconds after the change, the three old messages form the batch and are each deleted. */
  lemma SampleChannelDeletes(t: int)
    ensures ChannelActions(SampleEntry(t), SampleWorld(t), t + 70) ==
      [Fetch(10, t + 70 - 7 * SECONDS_PER_DAY, 4), Delete(10, 1, true), Delete(10, 2, true), Delete(10, 3, true)]
  {
    var h := SampleWorld(t)[10].history;
    var before := t + 70 - 7 * SECONDS_PER_DAY;
    assert Resolve(SampleWorld(t), 10) == Live(h, false);
    OlderThanAll(h, before);
    assert Batch(h, before, 4) == h;
    assert Attempts(10, h[2..]) == [Delete(10, 3, true)];
    assert Attempts(10, h[1..]) == [Delete(10, 2, true), Delete(10, 3, true)];
  }

  /** 70 seconds after the change, one tick deletes all three messages and prunes nothing. */
  lemma SampleTickDeletes(t: int)
    ensures TickSpec(true, Listed([SampleEntry(t)]), SampleWorld(t), t + 70) ==
      TickResult([Fetch(10, t + 70 - 7 * SECONDS_PER_DAY, 4), Delete(10, 1, true), Delete(10, 2, true), Delete(10, 3, true)],
                 Listed([SampleEntry(t)]))
  {
    var e, w, reg := SampleEntry(t), SampleWorld(t), Listed([SampleEntry(t)]);
    SampleChannelDeletes(t);
    assert Resolve(w, 10).Live?;
    assert !Aborts(e, w, t + 70);
    assert [e][1..] == [];
    assert Run([e][1..], reg, w, t + 70) == TickResult([], reg);
  }

  /** 10 seconds after the change, the record is only skipped. */
  lemma SampleTickSkips(t: int)
    ensures TickSpec(true, Listed([SampleEntry(t)]), SampleWorld(t), t + 10) ==
      TickResult([Skip(10)], Listed([SampleEntry(t)]))
  {
    var e, w, reg := SampleEntry(t), SampleWorld(t), Listed([SampleEntry(t)]);
    assert Resolve(w, 10).Live?;
    assert ChannelActions(e, w, t + 10) == [Skip(10)];
    assert !Aborts(e, w, t + 10);
    assert [e][1..] == [];
    assert Run([e][1..], reg, w, t + 10) == TickResult([], reg);
    assert Run([e], reg, w, t + 10) == TickResult([Skip(10)], reg);
  }
}
