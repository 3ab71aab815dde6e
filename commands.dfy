/**
 The chat commands: `on_message` decides whether a message is a command the
 bot acts on, `on_join` parses `.reap <days>` and `on_leave` parses `.unreap`;
 each then makes at most one registry call and answers with one reply.
 */
module Commands {
  import opened Wrappers
  import opened Strings
  import opened Channels

  const REAP_WORD := ".reap"
  const UNREAP_WORD := ".unreap"

  /** Which handler `on_message` hands the message to. */
  datatype Command = NoCommand | ReapCommand | UnreapCommand

  /** What the bot sends back to the channel; each reply stands for the one or two lines the handler sends. */
  datatype Reply =
    | StartedReaping(maxDays: nat)  // announces reaping after the delay, for messages older than maxDays
    | AlreadyReaping
    | ReapUsage                     // did not understand, example `.reap 120`
    | StoppedReaping
    | WasNotReaping
    | UnreapUsage                   // did not understand, example `.unreap`

  /**
   `on_message`: messages of the bot itself and of non-administrators are
   ignored; otherwise the first space-separated word picks the handler, and
   `.reap` needs at least one more word.
   */
  function Dispatch(fromSelf: bool, isAdmin: bool, content: string): (c: Command)
    ensures c != NoCommand ==> !fromSelf && isAdmin
  {
    if fromSelf || !isAdmin then NoCommand
    else
      var words := Split(content);
      if |words| >= 2 && words[0] == REAP_WORD then ReapCommand
      else if |words| >= 1 && words[0] == UNREAP_WORD then UnreapCommand
      else NoCommand
  }

  /**
   `on_join`'s argument check: `content.split(" ", 2)` must give exactly two
   pieces and the second must match `^[0-9]{1,4}$`; the window is its value.
   */
  function ParseReap(content: string): (days: Option<nat>)
    ensures days.Some? ==> days.value <= 9999
  {
    var parts := SplitAtMost(content, 2);
    if |parts| == 2 && MatchesDaysPattern(parts[1]) then
      var digits := WithoutFinalNewline(parts[1]);
      Pow10Bound(|digits|);
      Some(DecimalValue(digits))
    else None
  }

  /** `on_leave`'s argument check: `content.split(" ")` gives one piece, so the text holds no space. */
  predicate ParseUnreap(content: string)
    ensures ParseUnreap(content) <==> SPACE !in content
  {
    SplitSingle(content);
    |Split(content)| == 1
  }

  lemma Pow10Bound(k: nat)
    requires k <= 4
    ensures Pow10(k) <= 10000
  {
    assert Pow10(1) == 10;
    assert Pow10(2) == 100;
    assert Pow10(3) == 1000;
    assert Pow10(4) == 10000;
  }

  /** Text matching the days pattern holds digits and at most a final newline, never a space. */
  lemma PatternHasNoSpace(t: string)
    requires MatchesDaysPattern(t)
    ensures SPACE !in t
  {
    var d := WithoutFinalNewline(t);
    if d != t {
      assert t == d + [NEWLINE];
    }
  }

  /** After the word `.reap` and a space, the bounded split looks only at the rest. */
  lemma SplitAfterReap(content: string)
    requires |content| >= 6 && content[..6] == REAP_WORD + [SPACE]
    ensures SplitAtMost(content, 2) == [REAP_WORD] + SplitAtMost(content[6..], 1)
  {
    assert content[5] == content[..6][5];
    assert content[..5] == content[..6][..5];
    IndexOfFirst(content, SPACE, 5);
  }

  /** One split of a text without spaces leaves it whole; with a space it gives two pieces. */
  lemma SplitOnce(t: string)
    ensures SPACE !in t ==> SplitAtMost(t, 1) == [t]
    ensures SPACE in t ==> |SplitAtMost(t, 1)| == 2
  {
    match IndexOf(t, SPACE)
    case None =>
    case Some(k) =>
      assert SplitAtMost(t, 1) == [t[..k], t[k + 1..]];
  }

  /**
   `on_message` hands a message to `on_join` exactly when an administrator
   other than the bot wrote `.reap` followed by a space.
   */
  lemma DispatchReap(fromSelf: bool, isAdmin: bool, content: string)
    ensures Dispatch(fromSelf, isAdmin, content) == ReapCommand <==>
      !fromSelf && isAdmin && |content| >= 6 && content[..6] == REAP_WORD + [SPACE]
  {
    SplitStartsWith(content, REAP_WORD);
  }

  /**
   `on_message` hands a message to `on_leave` exactly when an administrator
   other than the bot wrote `.unreap` alone or followed by a space.
   */
  lemma DispatchUnreap(fromSelf: bool, isAdmin: bool, content: string)
    ensures Dispatch(fromSelf, isAdmin, content) == UnreapCommand <==>
      !fromSelf && isAdmin &&
      (content == UNREAP_WORD || (|content| >= 8 && content[..8] == UNREAP_WORD + [SPACE]))
  {
    SplitStartsWith(content, REAP_WORD);
    SplitStartsWith(content, UNREAP_WORD);
    SplitSingle(content);
    if content == UNREAP_WORD {
      assert SPACE !in content;
    }
  }

  /**
   An administrator's message sets a window of `d` days exactly when it reads
   `.reap ` followed by one to four digits spelling `d` (and at most a final
   newline): a second space, a fifth digit or any other character is refused.
   */
  lemma ReapCommandAccepted(content: string, d: nat)
    ensures (Dispatch(false, true, content) == ReapCommand && ParseReap(content) == Some(d)) <==>
      (|content| >= 6 && content[..6] == REAP_WORD + [SPACE] && MatchesDaysPattern(content[6..])
       && DecimalValue(WithoutFinalNewline(content[6..])) == d)
  {
    DispatchReap(false, true, content);
    if |content| >= 6 && content[..6] == REAP_WORD + [SPACE] {
      var t := content[6..];
      SplitAfterReap(content);
      SplitOnce(t);
      if MatchesDaysPattern(t) {
        PatternHasNoSpace(t);
      }
    }
  }

  /** Every window from 0 to 9999 days can be set, by writing it in decimal. */
  lemma ReapAcceptsEveryWindow(n: nat)
    requires n <= 9999
    ensures Dispatch(false, true, REAP_WORD + [SPACE] + DecimalString(n)) == ReapCommand
    ensures ParseReap(REAP_WORD + [SPACE] + DecimalString(n)) == Some(n)
  {
    var content := REAP_WORD + [SPACE] + DecimalString(n);
    assert content[6..] == DecimalString(n);
    assert content[..6] == REAP_WORD + [SPACE];
    DecimalStringLength(n, 4);
    DecimalRoundTrip(n);
    ReapCommandAccepted(content, n);
  }

  /** An administrator's message stops reaping exactly when it is `.unreap` and nothing else. */
  lemma UnreapCommandAccepted(content: string)
    ensures (Dispatch(false, true, content) == UnreapCommand && ParseUnreap(content)) <==> content == UNREAP_WORD
  {
    DispatchUnreap(false, true, content);
    SplitSingle(content);
    if |content| >= 8 && content[..8] == UNREAP_WORD + [SPACE] {
      assert content[7] == content[..8][7];
    }
  }

  /**
   `on_join`: with a well-formed window, `join_channel` records it and the bot
   announces it; otherwise the bot answers with the usage text and the
   registry is not touched. `join_channel` always answers `True`, so the
   "already reaping" reply is never sent.
   */
  method OnJoin(registry: Registry, server: int, channel: int, content: string, now: int) returns (reply: Reply)
    modifies registry
    ensures ParseReap(content).Some? ==>
      reply == StartedReaping(ParseReap(content).value) &&
      registry.file == Listed(Upserted(Loaded(old(registry.file)), server, channel, ParseReap(content).value, now))
    ensures ParseReap(content).None? ==> reply == ReapUsage && registry.file == old(registry.file)
  {
    var days := ParseReap(content);
    if days.Some? {
      var ok := registry.Join(server, channel, days.value, now);
      if ok {
        reply := StartedReaping(days.value);
      } else {
        reply := AlreadyReaping;
      }
    } else {
      reply := ReapUsage;
    }
  }

  /**
   `on_leave`: with no argument, `leave_channel` runs and the reply says
   whether it dropped anything; otherwise the usage text, registry untouched.
   */
  method OnLeave(registry: Registry, server: int, channel: int, content: string) returns (reply: Reply)
    modifies registry
    ensures ParseUnreap(content) ==>
      registry.file == Pruned(old(registry.file), server, channel) &&
      (reply == StoppedReaping || reply == WasNotReaping) &&
      (reply == StoppedReaping <==> exists e :: e in Loaded(old(registry.file)) && !Kept(e, server, channel))
    ensures !ParseUnreap(content) ==> reply == UnreapUsage && registry.file == old(registry.file)
  {
    var words := Split(content);
    if |words| == 1 {
      var removed := registry.Leave(server, channel);
      if removed {
        reply := StoppedReaping;
      } else {
        reply := WasNotReaping;
      }
    } else {
      reply := UnreapUsage;
    }
  }

  /**
   `on_message`: runs the handler `Dispatch` picks, in the channel `channel`
   of server `server`; a message that is not a command gets no reply and
   leaves the registry as it was.
   */
  method OnMessage(registry: Registry, fromSelf: bool, isAdmin: bool, server: int, channel: int,
                   content: string, now: int) returns (reply: Option<Reply>)
    modifies registry
    ensures Dispatch(fromSelf, isAdmin, content) == NoCommand ==>
      reply == None && registry.file == old(registry.file)
    ensures Dispatch(fromSelf, isAdmin, content) == ReapCommand ==>
      reply.Some? &&
      (ParseReap(content).Some? ==>
        reply.value == StartedReaping(ParseReap(content).value) &&
        registry.file == Listed(Upserted(Loaded(old(registry.file)), server, channel, ParseReap(content).value, now))) &&
      (ParseReap(content).None? ==> reply.value == ReapUsage && registry.file == old(registry.file))
    ensures Dispatch(fromSelf, isAdmin, content) == UnreapCommand ==>
      reply.Some? &&
      (ParseUnreap(content) ==>
        registry.file == Pruned(old(registry.file), server, channel) &&
        (reply.value == StoppedReaping || reply.value == WasNotReaping) &&
        (reply.value == StoppedReaping <==> exists e :: e in Loaded(old(registry.file)) && !Kept(e, server, channel))) &&
      (!ParseUnreap(content) ==> reply.value == UnreapUsage && registry.file == old(registry.file))
  {
    reply := None;
    if !fromSelf && isAdmin {
      var command := Split(content);
      if |command| >= 2 && command[0] == REAP_WORD {
        var r := OnJoin(registry, server, channel, content, now);
        reply := Some(r);
      } else if |command| >= 1 && command[0] == UNREAP_WORD {
        var r := OnLeave(registry, server, channel, content);
        reply := Some(r);
      }
    }
  }
}
