/**
 The channel registry kept in `channels.yaml`: a list of records
 `{channel, server, config: {max_days, updated}}`. Each operation loads the
 whole file, transforms the list and writes it back; the file is the `file`
 field of a `Registry` object.
 */
module Channels {

  /** The `config` mapping of one record: retention window in days and the
      time of the last write, in whole seconds. */
  datatype Config = Config(maxDays: int, updated: int)

  /** One record of the list. */
  datatype Entry = Entry(channel: int, server: int, config: Config)

  /** What loading the file yields: YAML `null` (an empty file) or a list. */
  datatype Stored = Null | Listed(entries: seq<Entry>)

  /** The loaded list, with `None` read as the empty list. */
  function Loaded(file: Stored): seq<Entry>
  {
    if file.Null? then [] else file.entries
  }

  /** The record is the one for the pair (`server`, `channel`). */
  predicate Matches(e: Entry, server: int, channel: int)
  {
    e.channel == channel && e.server == server
  }

  predicate HasKey(es: seq<Entry>, server: int, channel: int)
  {
    exists i :: 0 <= i < |es| && Matches(es[i], server, channel)
  }

  /** At most one record per (server, channel) pair. */
  predicate Unique(es: seq<Entry>)
  {
    forall i, j :: 0 <= i < j < |es| ==> !Matches(es[j], es[i].server, es[i].channel)
  }

  // ---------------------------------------------------------------------------
  // join_channel: update every matching record in place, or append a new one.

  /** One record after the loop body of `join_channel` has looked at it. */
  function Reconfigure(e: Entry, server: int, channel: int, maxDays: int, now: int): Entry
  {
    if Matches(e, server, channel) then e.(config := e.config.(maxDays := maxDays, updated := now)) else e
  }

  /** The list after the loop of `join_channel` has visited every record. */
  function Reconfigured(es: seq<Entry>, server: int, channel: int, maxDays: int, now: int): (r: seq<Entry>)
    ensures |r| == |es|
  {
    if es == [] then []
    else Reconfigured(es[..|es| - 1], server, channel, maxDays, now)
         + [Reconfigure(es[|es| - 1], server, channel, maxDays, now)]
  }

  /** The list `join_channel` writes back. */
  function Upserted(es: seq<Entry>, server: int, channel: int, maxDays: int, now: int): seq<Entry>
  {
    if HasKey(es, server, channel) then Reconfigured(es, server, channel, maxDays, now)
    else es + [Entry(channel, server, Config(maxDays, now))]
  }

  lemma {:induction false} ReconfiguredAt(es: seq<Entry>, server: int, channel: int, maxDays: int, now: int, i: int)
    requires 0 <= i < |es|
    ensures Reconfigured(es, server, channel, maxDays, now)[i] == Reconfigure(es[i], server, channel, maxDays, now)
  {
    if i < |es| - 1 {
      ReconfiguredAt(es[..|es| - 1], server, channel, maxDays, now, i);
    }
  }

  /** The loop of `join_channel` visits one more record. */
  lemma ReconfiguredStep(es: seq<Entry>, server: int, channel: int, maxDays: int, now: int, i: int)
    requires 0 <= i < |es|
    ensures Reconfigured(es[..i + 1], server, channel, maxDays, now) ==
      Reconfigured(es[..i], server, channel, maxDays, now) + [Reconfigure(es[i], server, channel, maxDays, now)]
  {
    assert es[..i + 1][..i] == es[..i];
  }

  /** After one more record, the loop has seen the pair iff it had before or this record matches. */
  lemma HasKeyStep(es: seq<Entry>, server: int, channel: int, i: int)
    requires 0 <= i < |es|
    ensures HasKey(es[..i + 1], server, channel) <==> HasKey(es[..i], server, channel) || Matches(es[i], server, channel)
  {
    assert es[..i + 1] == es[..i] + [es[i]];
  }

  /** Without a matching record, the update pass changes nothing. */
  lemma ReconfiguredWithoutKey(es: seq<Entry>, server: int, channel: int, maxDays: int, now: int)
    requires !HasKey(es, server, channel)
    ensures Reconfigured(es, server, channel, maxDays, now) == es
  {
    forall k | 0 <= k < |es| ensures Reconfigured(es, server, channel, maxDays, now)[k] == es[k] {
      ReconfiguredAt(es, server, channel, maxDays, now, k);
    }
  }

  /** Records of other pairs come out of `join_channel` exactly as they went in. */
  lemma UpsertLeavesOthers(es: seq<Entry>, server: int, channel: int, maxDays: int, now: int)
    ensures |Upserted(es, server, channel, maxDays, now)| >= |es|
    ensures forall i :: 0 <= i < |es| && !Matches(es[i], server, channel) ==>
      Upserted(es, server, channel, maxDays, now)[i] == es[i]
  {
    forall i | 0 <= i < |es| && !Matches(es[i], server, channel)
      ensures Upserted(es, server, channel, maxDays, now)[i] == es[i]
    {
      if HasKey(es, server, channel) {
        ReconfiguredAt(es, server, channel, maxDays, now, i);
      }
    }
  }

  /**
   When the pair is already listed, `join_channel` sets `max_days` and `updated`
   on the matching records where they stand and appends nothing.
   */
  lemma UpsertReconfiguresInPlace(es: seq<Entry>, server: int, channel: int, maxDays: int, now: int)
    requires HasKey(es, server, channel)
    ensures |Upserted(es, server, channel, maxDays, now)| == |es|
    ensures forall i :: 0 <= i < |es| && Matches(es[i], server, channel) ==>
      Upserted(es, server, channel, maxDays, now)[i] == Entry(channel, server, Config(maxDays, now))
  {
    forall i | 0 <= i < |es| && Matches(es[i], server, channel)
      ensures Upserted(es, server, channel, maxDays, now)[i] == Entry(channel, server, Config(maxDays, now))
    {
      ReconfiguredAt(es, server, channel, maxDays, now, i);
    }
  }

  /** When the pair is not listed, exactly one new record is appended at the end. */
  lemma UpsertAppendsWhenAbsent(es: seq<Entry>, server: int, channel: int, maxDays: int, now: int)
    requires !HasKey(es, server, channel)
    ensures Upserted(es, server, channel, maxDays, now) == es + [Entry(channel, server, Config(maxDays, now))]
  {
  }

  /** After `join_channel` the pair is listed, and every record for it carries the new window. */
  lemma UpsertEstablishes(es: seq<Entry>, server: int, channel: int, maxDays: int, now: int)
    ensures HasKey(Upserted(es, server, channel, maxDays, now), server, channel)
    ensures forall e :: e in Upserted(es, server, channel, maxDays, now) && Matches(e, server, channel) ==>
      e.config == Config(maxDays, now)
  {
    var r := Upserted(es, server, channel, maxDays, now);
    if HasKey(es, server, channel) {
      var k :| 0 <= k < |es| && Matches(es[k], server, channel);
      ReconfiguredAt(es, server, channel, maxDays, now, k);
      assert Matches(r[k], server, channel);
      forall e | e in r && Matches(e, server, channel) ensures e.config == Config(maxDays, now) {
        var i :| 0 <= i < |r| && r[i] == e;
        ReconfiguredAt(es, server, channel, maxDays, now, i);
      }
    } else {
      assert Matches(r[|es|], server, channel);
    }
  }

  /** `join_channel` never creates a second record for a pair. */
  lemma UpsertKeepsUnique(es: seq<Entry>, server: int, channel: int, maxDays: int, now: int)
    requires Unique(es)
    ensures Unique(Upserted(es, server, channel, maxDays, now))
  {
    var r := Upserted(es, server, channel, maxDays, now);
    if HasKey(es, server, channel) {
      forall i, j | 0 <= i < j < |r| ensures !Matches(r[j], r[i].server, r[i].channel) {
        ReconfiguredAt(es, server, channel, maxDays, now, i);
        ReconfiguredAt(es, server, channel, maxDays, now, j);
      }
    } else {
      forall i, j | 0 <= i < j < |r| ensures !Matches(r[j], r[i].server, r[i].channel) {
        if j == |es| {
          assert !Matches(es[i], server, channel);
        }
      }
    }
  }

  // ---------------------------------------------------------------------------
  // leave_channel: keep the records the filter admits and report a shrink.

  /**
   The filter `leave_channel` applies to each record, as the code states it:
   a record survives when its channel differs AND its server is the same.
   Records of every other server therefore fail it.
   */
  predicate Kept(e: Entry, server: int, channel: int)
  {
    e.channel != channel && e.server == server
  }

  /** The surviving records, in their original order. */
  function Remaining(es: seq<Entry>, server: int, channel: int): (r: seq<Entry>)
    ensures |r| <= |es|
  {
    if es == [] then []
    else (if Kept(es[0], server, channel) then [es[0]] else []) + Remaining(es[1..], server, channel)
  }

  /** The file after `leave_channel(server, channel)`. */
  function Pruned(file: Stored, server: int, channel: int): Stored
  {
    Listed(Remaining(Loaded(file), server, channel))
  }

  /** Each kept record survives as many times as it was listed; every other record, not at all. */
  lemma {:induction false} RemainingMultiplicity(es: seq<Entry>, server: int, channel: int)
    ensures forall e :: multiset(Remaining(es, server, channel))[e] ==
                        (if Kept(e, server, channel) then multiset(es)[e] else 0)
  {
    if es != [] {
      RemainingMultiplicity(es[1..], server, channel);
      assert es == [es[0]] + es[1..];
      assert multiset(es) == multiset([es[0]]) + multiset(es[1..]);
    }
  }

  /** `a` lists some of the records of `b`, in the same relative order. */
  predicate IsSubsequence(a: seq<Entry>, b: seq<Entry>)
    decreases |b|
  {
    if a == [] then true
    else if b == [] then false
    else (a[0] == b[0] && IsSubsequence(a[1..], b[1..])) || IsSubsequence(a, b[1..])
  }

  /** A record survives `leave_channel` exactly when it was listed and passes the filter. */
  lemma {:induction false} RemainingMembers(es: seq<Entry>, server: int, channel: int)
    ensures forall e :: e in Remaining(es, server, channel) <==> e in es && Kept(e, server, channel)
  {
    if es != [] {
      RemainingMembers(es[1..], server, channel);
      assert es == [es[0]] + es[1..];
    }
  }

  /** `leave_channel` only drops records: what remains keeps its original order. */
  lemma {:induction false} RemainingIsSubsequence(es: seq<Entry>, server: int, channel: int)
    ensures IsSubsequence(Remaining(es, server, channel), es)
  {
    if es != [] {
      RemainingIsSubsequence(es[1..], server, channel);
      var rest := Remaining(es[1..], server, channel);
      if Kept(es[0], server, channel) {
        assert ([es[0]] + rest)[1..] == rest;
      } else {
        assert Remaining(es, server, channel) == rest;
      }
    }
  }

  /**
   `leave_channel` reports `True` exactly when some listed record fails the
   filter, which is when the written list is shorter than the loaded one.
   */
  lemma {:induction false} RemovedIffSomeDropped(es: seq<Entry>, server: int, channel: int)
    ensures |Remaining(es, server, channel)| != |es| <==> exists e :: e in es && !Kept(e, server, channel)
  {
    if es != [] {
      RemovedIffSomeDropped(es[1..], server, channel);
      assert es == [es[0]] + es[1..];
    }
  }

  /**
   When every record belongs to `server` and none is for `channel`, the list
   is written back unchanged and `leave_channel` reports `False`.
   */
  lemma {:induction false} LeaveAbsentInSameServer(es: seq<Entry>, server: int, channel: int)
    requires forall e :: e in es ==> e.server == server && e.channel != channel
    ensures Remaining(es, server, channel) == es
  {
    if es != [] {
      assert es[0] in es;
      assert forall e :: e in es[1..] ==> e in es;
      LeaveAbsentInSameServer(es[1..], server, channel);
      assert es == [es[0]] + es[1..];
    }
  }

  /**
   The filter as written also drops every record of any other server: leaving
   one channel of `server` forgets the whole configuration of other servers.
   */
  lemma LeaveDropsOtherServers(es: seq<Entry>, server: int, channel: int, e: Entry)
    requires e in es && e.server != server
    ensures e !in Remaining(es, server, channel)
    ensures |Remaining(es, server, channel)| < |es|
  {
    RemainingMembers(es, server, channel);
    RemovedIffSomeDropped(es, server, channel);
  }

  /** After `leave_channel(server, channel)` no record for `channel` is left. */
  lemma ChannelGoneAfterLeave(es: seq<Entry>, server: int, channel: int)
    ensures forall e :: e in Remaining(es, server, channel) ==> e.channel != channel && e.server == server
  {
    RemainingMembers(es, server, channel);
  }

  /** `leave_channel` keeps the one-record-per-pair invariant. */
  lemma {:induction false} LeaveKeepsUnique(es: seq<Entry>, server: int, channel: int)
    requires Unique(es)
    ensures Unique(Remaining(es, server, channel))
  {
    if es != [] {
      var rest := Remaining(es[1..], server, channel);
      assert Unique(es[1..]) by {
        forall i, j | 0 <= i < j < |es[1..]| ensures !Matches(es[1..][j], es[1..][i].server, es[1..][i].channel) {
          assert es[1..][i] == es[i + 1] && es[1..][j] == es[j + 1];
        }
      }
      LeaveKeepsUnique(es[1..], server, channel);
      if Kept(es[0], server, channel) {
        RemainingMembers(es[1..], server, channel);
        var r := [es[0]] + rest;
        forall i, j | 0 <= i < j < |r| ensures !Matches(r[j], r[i].server, r[i].channel) {
          if i == 0 {
            assert r[j] in es[1..];
            var k :| 0 <= k < |es[1..]| && es[1..][k] == r[j];
            assert es[k + 1] == r[j];
          } else {
            assert r[i] == rest[i - 1] && r[j] == rest[j - 1];
          }
        }
      }
    }
  }

  // ---------------------------------------------------------------------------
  // The file, shared by the command handlers and the tick.

  class Registry {
    /** The content of `channels.yaml`. */
    var file: Stored

    constructor (initial: Stored)
      ensures file == initial
    {
      file := initial;
    }

    /** `get_channels`: the loaded file as it stands, `None` included. */
    method GetChannels() returns (snapshot: Stored)
      ensures snapshot == file
    {
      snapshot := file;
    }

    /**
     `join_channel(server, channel, maxDays)` with the clock reading `now`:
     sets the window of every record for the pair, or appends one record when
     there is none, writes the list back and answers `True`.
     */
    method Join(server: int, channel: int, maxDays: int, now: int) returns (ok: bool)
      modifies this
      ensures ok
      ensures file == Listed(Upserted(Loaded(old(file)), server, channel, maxDays, now))
    {
      var current := Loaded(file);
      ghost var original := current;
      var found := false;
      var i := 0;
      while i < |current|
        invariant 0 <= i <= |current| == |original|
        invariant current[..i] == Reconfigured(original[..i], server, channel, maxDays, now)
        invariant current[i..] == original[i..]
        invariant found == HasKey(original[..i], server, channel)
      {
        ReconfiguredStep(original, server, channel, maxDays, now, i);
        HasKeyStep(original, server, channel, i);
        assert current[i] == original[i] by {
          assert current[i..][0] == current[i] && original[i..][0] == original[i];
        }
        ghost var before := current;
        if current[i].channel == channel && current[i].server == server {
          current := current[i := current[i].(config := current[i].config.(maxDays := maxDays, updated := now))];
          found := true;
        }
        assert current[i + 1..] == before[i + 1..] == original[i + 1..];
        assert current[..i + 1] == before[..i] + [current[i]];
        i := i + 1;
      }
      assert current == current[..i] && original == original[..i];
      if !found {
        ReconfiguredWithoutKey(original, server, channel, maxDays, now);
        current := current + [Entry(channel, server, Config(maxDays, now))];
      }
      file := Listed(current);
      ok := true;
    }

    /**
     `leave_channel(server, channel)`: writes back the records the filter keeps
     and answers whether any record was dropped.
     */
    method Leave(server: int, channel: int) returns (removed: bool)
      modifies this
      ensures file == Pruned(old(file), server, channel)
      ensures removed <==> exists e :: e in Loaded(old(file)) && !Kept(e, server, channel)
    {
      var original := Loaded(file);
      var kept := Remaining(original, server, channel);
      file := Listed(kept);
      removed := |kept| != |original|;
      RemovedIffSomeDropped(original, server, channel);
    }
  }
}
