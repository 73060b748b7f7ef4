/** The waiting loops of `Driver`, all Python `for _ in xrange(n):` loops
    sharing one model, `PollFrom`. The presence, message and file waits
    break out on success and raise from their `else:` when no attempt
    did; `ensure_no_channel_reply_from_bot_rtm` neither breaks nor has an
    `else:`, so it returns once all its attempts are made. An attempt
    reports `Ok(true)` (break), `Ok(false)` (keep waiting) or `Err` (it
    raised, which ends the loop with that error). What the driver observes
    on attempt `j` (the event buffer, the bot's presence) is a function of
    `j`. */
module Polling {
  import opened Outcomes
  import opened Events

  /** How a waiting loop ended: the number of attempts made, and whether it
      returned or what it raised. */
  datatype LoopEnd = LoopEnd(attempts: nat, outcome: Outcome)

  /** The number of iterations of `xrange(n)`. */
  function Iterations(n: int): nat {
    if n <= 0 then 0 else n
  }

  /** Every attempt from `i` up to, not including, `n` said to keep waiting. */
  predicate KeepsWaiting(attempt: nat -> Result<bool>, i: nat, n: int) {
    forall j: nat :: i <= j < n ==> attempt(j) == Ok(false)
  }

  /** What the attempt that ended the loop early did: raise, or break. */
  function Stop(r: Result<bool>): Outcome {
    match r
    case Err(e) => Fail(e)
    case Ok(_) => Pass
  }

  /** The loop from attempt `i` on: either every remaining attempt keeps
      waiting and the loop falls into its `else:` after `n` attempts, or it
      ends on the first attempt that does not. */
  function PollFrom(i: nat, n: int, attempt: nat -> Result<bool>, exhausted: Outcome): (r: LoopEnd)
    ensures KeepsWaiting(attempt, i, n) ==> r == LoopEnd(if n <= i then i else n, exhausted)
    ensures !KeepsWaiting(attempt, i, n) ==>
      && i < r.attempts <= n
      && KeepsWaiting(attempt, i, r.attempts - 1)
      && attempt(r.attempts - 1) != Ok(false)
      && r.outcome == Stop(attempt(r.attempts - 1))
    decreases n - i
  {
    if n <= i then LoopEnd(i, exhausted)
    else
      match attempt(i)
      case Err(e) => LoopEnd(i + 1, Fail(e))
      case Ok(true) => LoopEnd(i + 1, Pass)
      case Ok(false) => PollFrom(i + 1, n, attempt, exhausted)
  }

  /** When no attempt raises, a successful attempt makes the loop return;
      when every attempt says to keep waiting, the loop makes them all and
      ends as its `else:` says. */
  lemma PollWithoutErrors(n: int, attempt: nat -> Result<bool>, exhausted: Outcome)
    requires forall j: nat :: j < n ==> attempt(j).Ok?
    ensures (exists j: nat :: j < n && attempt(j) == Ok(true)) ==>
      PollFrom(0, n, attempt, exhausted).outcome == Pass
    ensures (forall j: nat :: j < n ==> attempt(j) == Ok(false)) ==>
      PollFrom(0, n, attempt, exhausted) == LoopEnd(Iterations(n), exhausted)
  {
    var r := PollFrom(0, n, attempt, exhausted);
    if exists j: nat :: j < n && attempt(j) == Ok(true) {
      var j: nat :| j < n && attempt(j) == Ok(true);
      assert !KeepsWaiting(attempt, 0, n);
      assert attempt(r.attempts - 1).Ok?;
    }
  }

  /** A loop whose `else:` raises `timeout` either returns on a successful
      attempt after unsuccessful ones, or raises what an attempt raised, or
      raises `timeout` after all its attempts. */
  lemma BreakingPoll(n: int, attempt: nat -> Result<bool>, timeout: Failure)
    ensures PollFrom(0, n, attempt, Fail(timeout)).attempts <= Iterations(n)
    ensures var r := PollFrom(0, n, attempt, Fail(timeout));
      r.outcome == Pass ==>
        1 <= r.attempts && attempt(r.attempts - 1) == Ok(true) && KeepsWaiting(attempt, 0, r.attempts - 1)
    ensures var r := PollFrom(0, n, attempt, Fail(timeout));
      r.outcome.Fail? ==>
        || r == LoopEnd(Iterations(n), Fail(timeout))
        || (1 <= r.attempts && attempt(r.attempts - 1) == Err(r.outcome.error))
  {
    var r := PollFrom(0, n, attempt, Fail(timeout));
    if !KeepsWaiting(attempt, 0, n) {
      var a := attempt(r.attempts - 1);
      assert a != Ok(false) && r.outcome == Stop(a);
      match a
      case Err(e) => assert r.outcome == Fail(e);
      case Ok(b) => assert b && r.outcome == Pass;
    }
  }

  /** A loop that never breaks and whose `else:` returns: it returns after
      all its attempts exactly when every attempt keeps waiting, and
      otherwise raises what the first other attempt raised. */
  lemma SilentPoll(n: int, attempt: nat -> Result<bool>)
    requires forall j: nat :: attempt(j) != Ok(true)
    ensures PollFrom(0, n, attempt, Pass).outcome == Pass <==> KeepsWaiting(attempt, 0, n)
    ensures var r := PollFrom(0, n, attempt, Pass);
      r.outcome == Pass ==> r.attempts == Iterations(n)
    ensures var r := PollFrom(0, n, attempt, Pass);
      r.outcome.Fail? ==>
        && 1 <= r.attempts <= n
        && KeepsWaiting(attempt, 0, r.attempts - 1)
        && attempt(r.attempts - 1) == Err(r.outcome.error)
  {
    var r := PollFrom(0, n, attempt, Pass);
    if !KeepsWaiting(attempt, 0, n) {
      var a := attempt(r.attempts - 1);
      assert a != Ok(false) && a != Ok(true) && r.outcome == Stop(a);
      match a
      case Err(e) => assert r.outcome == Fail(e);
      case Ok(b) => assert false;
    }
  }

  // ---------------------------------------------------------------------
  // _wait_for_bot_presense, wait_for_bot_online, wait_for_bot_offline
  // ---------------------------------------------------------------------

  /** Presence is polled ten times, two seconds apart. */
  const PresencePolls := 10

  function PresenceTimeout(online: bool): Failure {
    AssertionError("test bot is still " + (if online then "offline" else "online"))
  }

  /** Attempt `j` of the presence wait breaks out when the bot is seen in
      the wanted state. */
  function PresenceAttempts(online: bool, active: nat -> bool): nat -> Result<bool> {
    (j: nat) => Ok(active(j) == online)
  }

  /** `_wait_for_bot_presense(online)`, where `active(j)` is whether the
      presence query of attempt `j` reported the bot active. The presence
      query is taken never to raise, so the wait can only fail by timing
      out. */
  function WaitForBotPresence(online: bool, active: nat -> bool): (r: LoopEnd)
    ensures r.attempts <= PresencePolls
    ensures r.outcome.Fail? ==> r.outcome.error == PresenceTimeout(online)
  {
    BreakingPoll(PresencePolls, PresenceAttempts(online, active), PresenceTimeout(online));
    PollFrom(0, PresencePolls, PresenceAttempts(online, active), Fail(PresenceTimeout(online)))
  }

  /** The presence wait returns as soon as the bot is seen in the wanted
      state, and raises after ten polls that all saw the other state. */
  lemma WaitForBotPresenceEnds(online: bool, active: nat -> bool)
    ensures WaitForBotPresence(online, active).outcome == Pass <==>
      exists k: nat :: k < PresencePolls && active(k) == online
    ensures var r := WaitForBotPresence(online, active);
      r.outcome == Pass ==>
        && 1 <= r.attempts <= PresencePolls
        && active(r.attempts - 1) == online
        && forall j: nat :: j < r.attempts - 1 ==> active(j) != online
    ensures var r := WaitForBotPresence(online, active);
      r.outcome != Pass ==> r == LoopEnd(PresencePolls, Fail(PresenceTimeout(online)))
  {
    var attempt := PresenceAttempts(online, active);
    assert forall j: nat :: attempt(j) == Ok(active(j) == online);
    PollWithoutErrors(PresencePolls, attempt, Fail(PresenceTimeout(online)));
    BreakingPoll(PresencePolls, attempt, PresenceTimeout(online));
    var r := WaitForBotPresence(online, active);
    if r.outcome == Pass {
      forall j: nat | j < r.attempts - 1 ensures active(j) != online {
        assert attempt(j) == Ok(false);
      }
    }
  }

  /** `wait_for_bot_online`: returns once the bot is seen active. */
  function WaitForBotOnline(active: nat -> bool): (r: LoopEnd)
    ensures r.outcome == Pass <==> exists k: nat :: k < PresencePolls && active(k)
    ensures r.outcome.Fail? ==> r.outcome.error == AssertionError("test bot is still offline")
  {
    assert PresenceTimeout(true) == AssertionError("test bot is still offline");
    WaitForBotPresenceEnds(true, active);
    WaitForBotPresence(true, active)
  }

  /** `wait_for_bot_offline`: returns once the bot is seen away. */
  function WaitForBotOffline(active: nat -> bool): (r: LoopEnd)
    ensures r.outcome == Pass <==> exists k: nat :: k < PresencePolls && !active(k)
    ensures r.outcome.Fail? ==> r.outcome.error == AssertionError("test bot is still online")
  {
    assert PresenceTimeout(false) == AssertionError("test bot is still online");
    WaitForBotPresenceEnds(false, active);
    WaitForBotPresence(false, active)
  }

  // ---------------------------------------------------------------------
  // _wait_for_bot_message, wait_for_bot_direct_message,
  // wait_for_bot_channel_message
  // ---------------------------------------------------------------------

  /** The default number of one-second polls for a reply or a file. */
  const DefaultMaxWait := 60

  /** The buffer holds a message the matcher accepts for `pattern` in
      `channel`. */
  predicate SeesMessage(s: Session, channel: string, pattern: string, events: seq<Event>,
                        matches: (string, string) -> bool) {
    HoldsMatch(events, MessagePattern(s, channel, pattern), matches)
  }

  /** The error raised when no matching message arrives; it quotes the
      pattern as the caller gave it, without the mention prefix. */
  function MessageTimeout(pattern: string): Failure {
    AssertionError("expected to get message like \"" + pattern + "\", but got nothing")
  }

  /** Attempt `j` of the message wait scans the buffer as it is then. */
  function MessageAttempts(s: Session, channel: string, pattern: string, buffer: nat -> seq<Event>,
                           matches: (string, string) -> bool): nat -> Result<bool> {
    (j: nat) => HasGotMessageRtm(s, channel, pattern, buffer(j), matches)
  }

  /** An attempt of the message wait that breaks out saw a matching message. */
  lemma MessageAttemptFinds(s: Session, channel: string, pattern: string, buffer: nat -> seq<Event>,
                            matches: (string, string) -> bool, j: nat)
    requires MessageAttempts(s, channel, pattern, buffer, matches)(j) == Ok(true)
    ensures SeesMessage(s, channel, pattern, buffer(j), matches)
  {
    assert HasGotMessageRtm(s, channel, pattern, buffer(j), matches) == Ok(true);
  }

  /** An attempt of the message wait that keeps waiting read its whole
      buffer and found no match. */
  lemma MessageAttemptWaits(s: Session, channel: string, pattern: string, buffer: nat -> seq<Event>,
                            matches: (string, string) -> bool, j: nat)
    requires MessageAttempts(s, channel, pattern, buffer, matches)(j) == Ok(false)
    ensures AllMessageReadable(buffer(j)) && !SeesMessage(s, channel, pattern, buffer(j), matches)
  {
    assert HasGotMessageRtm(s, channel, pattern, buffer(j), matches) == Ok(false);
  }

  /** An attempt of the message wait that raises met an unreadable event. */
  lemma MessageAttemptRaises(s: Session, channel: string, pattern: string, buffer: nat -> seq<Event>,
                             matches: (string, string) -> bool, j: nat)
    requires MessageAttempts(s, channel, pattern, buffer, matches)(j).Err?
    ensures !AllMessageReadable(buffer(j))
    ensures MessageAttempts(s, channel, pattern, buffer, matches)(j).error.KeyError?
  {
    assert HasGotMessageRtm(s, channel, pattern, buffer(j), matches).Err?;
  }

  /** `_wait_for_bot_message(channel, match, maxwait)`, with `buffer(j)` the
      events buffered when attempt `j` scans them. */
  function WaitForBotMessage(s: Session, channel: string, pattern: string, buffer: nat -> seq<Event>,
                             matches: (string, string) -> bool, maxwait: int): (r: LoopEnd)
    ensures r.attempts <= Iterations(maxwait)
    ensures r.outcome.Fail? ==> r.outcome.error == MessageTimeout(pattern) || r.outcome.error.KeyError?
  {
    assert forall j: nat ::
      MessageAttempts(s, channel, pattern, buffer, matches)(j) == HasGotMessageRtm(s, channel, pattern, buffer(j), matches);
    BreakingPoll(maxwait, MessageAttempts(s, channel, pattern, buffer, matches), MessageTimeout(pattern));
    PollFrom(0, maxwait, MessageAttempts(s, channel, pattern, buffer, matches), Fail(MessageTimeout(pattern)))
  }

  /** The wait returns only once a scanned buffer holds a matching message,
      every earlier buffer having been read in full without a match. */
  lemma WaitForBotMessageReturns(s: Session, channel: string, pattern: string, buffer: nat -> seq<Event>,
                                 matches: (string, string) -> bool, maxwait: int)
    ensures var r := WaitForBotMessage(s, channel, pattern, buffer, matches, maxwait);
      r.outcome == Pass ==>
        && 1 <= r.attempts
        && SeesMessage(s, channel, pattern, buffer(r.attempts - 1), matches)
        && forall j: nat :: j < r.attempts - 1 ==>
             AllMessageReadable(buffer(j)) && !SeesMessage(s, channel, pattern, buffer(j), matches)
  {
    var attempt := MessageAttempts(s, channel, pattern, buffer, matches);
    var r := WaitForBotMessage(s, channel, pattern, buffer, matches, maxwait);
    assert r == PollFrom(0, maxwait, attempt, Fail(MessageTimeout(pattern)));
    BreakingPoll(maxwait, attempt, MessageTimeout(pattern));
    if r.outcome == Pass {
      MessageAttemptFinds(s, channel, pattern, buffer, matches, r.attempts - 1);
      forall j: nat | j < r.attempts - 1
        ensures AllMessageReadable(buffer(j)) && !SeesMessage(s, channel, pattern, buffer(j), matches)
      {
        assert attempt(j) == Ok(false);
        MessageAttemptWaits(s, channel, pattern, buffer, matches, j);
      }
    }
  }

  /** The last buffer scanned by a wait that returned holds a matching
      message: the first half of `WaitForBotMessageReturns`, stated apart
      as a cheaper fact for the direct and channel waits to use. */
  lemma WaitForBotMessageFinds(s: Session, channel: string, pattern: string, buffer: nat -> seq<Event>,
                               matches: (string, string) -> bool, maxwait: int)
    ensures var r := WaitForBotMessage(s, channel, pattern, buffer, matches, maxwait);
      r.outcome == Pass ==>
        1 <= r.attempts && SeesMessage(s, channel, pattern, buffer(r.attempts - 1), matches)
  {
    var attempt := MessageAttempts(s, channel, pattern, buffer, matches);
    var r := WaitForBotMessage(s, channel, pattern, buffer, matches, maxwait);
    assert r == PollFrom(0, maxwait, attempt, Fail(MessageTimeout(pattern)));
    BreakingPoll(maxwait, attempt, MessageTimeout(pattern));
    if r.outcome == Pass {
      MessageAttemptFinds(s, channel, pattern, buffer, matches, r.attempts - 1);
    }
  }

  /** The wait raises either the timeout error after all its attempts, or
      the `KeyError` of a buffer that holds an event the scan cannot read. */
  lemma WaitForBotMessageRaises(s: Session, channel: string, pattern: string, buffer: nat -> seq<Event>,
                                matches: (string, string) -> bool, maxwait: int)
    ensures var r := WaitForBotMessage(s, channel, pattern, buffer, matches, maxwait);
      r.outcome.Fail? ==>
        || (r.attempts == Iterations(maxwait) && r.outcome.error == MessageTimeout(pattern))
        || (1 <= r.attempts && r.outcome.error.KeyError? && !AllMessageReadable(buffer(r.attempts - 1)))
  {
    var attempt := MessageAttempts(s, channel, pattern, buffer, matches);
    var r := WaitForBotMessage(s, channel, pattern, buffer, matches, maxwait);
    assert r == PollFrom(0, maxwait, attempt, Fail(MessageTimeout(pattern)));
    BreakingPoll(maxwait, attempt, MessageTimeout(pattern));
    if r.outcome.Fail? && r != LoopEnd(Iterations(maxwait), Fail(MessageTimeout(pattern))) {
      assert attempt(r.attempts - 1) == Err(r.outcome.error);
      MessageAttemptRaises(s, channel, pattern, buffer, matches, r.attempts - 1);
    }
  }


  /** With every key the scan reads present, the wait returns exactly when
      some attempt's buffer holds a matching message, and otherwise raises
      the timeout error after `maxwait` attempts. */
  lemma WaitForBotMessageReadable(s: Session, channel: string, pattern: string, buffer: nat -> seq<Event>,
                                  matches: (string, string) -> bool, maxwait: int)
    requires forall j: nat :: j < maxwait ==> AllMessageReadable(buffer(j))
    ensures WaitForBotMessage(s, channel, pattern, buffer, matches, maxwait).outcome == Pass <==>
      exists j: nat :: j < maxwait && SeesMessage(s, channel, pattern, buffer(j), matches)
    ensures WaitForBotMessage(s, channel, pattern, buffer, matches, maxwait).outcome != Pass ==>
      WaitForBotMessage(s, channel, pattern, buffer, matches, maxwait) ==
        LoopEnd(Iterations(maxwait), Fail(MessageTimeout(pattern)))
  {
    var attempt := MessageAttempts(s, channel, pattern, buffer, matches);
    assert forall j: nat :: j < maxwait ==>
      attempt(j) == Ok(SeesMessage(s, channel, pattern, buffer(j), matches));
    PollWithoutErrors(maxwait, attempt, Fail(MessageTimeout(pattern)));
  }

  /** `wait_for_bot_direct_message(match)`: sixty attempts with the direct
      conversation's id as the channel argument. Each attempt scans every
      buffered event, whatever its conversation; the id only decides that
      no mention prefix is added. */
  function WaitForBotDirectMessage(s: Session, pattern: string, buffer: nat -> seq<Event>,
                                   matches: (string, string) -> bool): (r: LoopEnd)
    ensures r.attempts <= DefaultMaxWait
    ensures r.outcome.Fail? ==> r.outcome.error == MessageTimeout(pattern) || r.outcome.error.KeyError?
  {
    WaitForBotMessage(s, s.dmChannel, pattern, buffer, matches, DefaultMaxWait)
  }

  /** `wait_for_bot_channel_message(match)`: sixty attempts with the test
      channel's id as the channel argument. Each attempt scans every
      buffered event, whatever its conversation; the id only decides that
      the mention prefix is added. */
  function WaitForBotChannelMessage(s: Session, pattern: string, buffer: nat -> seq<Event>,
                                    matches: (string, string) -> bool): (r: LoopEnd)
    ensures r.attempts <= DefaultMaxWait
    ensures r.outcome.Fail? ==> r.outcome.error == MessageTimeout(pattern) || r.outcome.error.KeyError?
  {
    WaitForBotMessage(s, s.channel, pattern, buffer, matches, DefaultMaxWait)
  }

  /** With the direct conversation's id the pattern is searched as given,
      over at most sixty attempts. */
  lemma DirectWaitUsesPattern(s: Session, pattern: string, buffer: nat -> seq<Event>,
                              matches: (string, string) -> bool)
    requires !IsPublicChannel(s.dmChannel)
    ensures WaitForBotDirectMessage(s, pattern, buffer, matches).attempts <= DefaultMaxWait
    ensures var r := WaitForBotDirectMessage(s, pattern, buffer, matches);
      r.outcome == Pass ==> 1 <= r.attempts && HoldsMatch(buffer(r.attempts - 1), pattern, matches)
  {
    var r := WaitForBotDirectMessage(s, pattern, buffer, matches);
    if r.outcome == Pass {
      WaitForBotMessageFinds(s, s.dmChannel, pattern, buffer, matches, DefaultMaxWait);
      assert MessagePattern(s, s.dmChannel, pattern) == pattern;
      assert SeesMessage(s, s.dmChannel, pattern, buffer(r.attempts - 1), matches);
    }
  }

  /** With the public test channel's id a matching reply must begin with
      the driver's mention and a colon, and at most sixty attempts are
      made. */
  lemma ChannelWaitRequiresMention(s: Session, pattern: string, buffer: nat -> seq<Event>,
                                   matches: (string, string) -> bool)
    requires IsPublicChannel(s.channel)
    ensures WaitForBotChannelMessage(s, pattern, buffer, matches).attempts <= DefaultMaxWait
    ensures var r := WaitForBotChannelMessage(s, pattern, buffer, matches);
      r.outcome == Pass ==>
        1 <= r.attempts && HoldsMatch(buffer(r.attempts - 1), "\\<@" + s.driverId + "\\>: " + pattern, matches)
  {
    var r := WaitForBotChannelMessage(s, pattern, buffer, matches);
    if r.outcome == Pass {
      WaitForBotMessageFinds(s, s.channel, pattern, buffer, matches, DefaultMaxWait);
      assert SeesMessage(s, s.channel, pattern, buffer(r.attempts - 1), matches);
      PublicMessagePattern(s, s.channel, pattern);
    }
  }

  // ---------------------------------------------------------------------
  // wait_for_file_uploaded
  // ---------------------------------------------------------------------

  function FileTimeout(name: string): Failure {
    AssertionError("expected to get file \"" + name + "\", but got nothing")
  }

  function FileAttempts(s: Session, name: string, buffer: nat -> seq<Event>): nat -> Result<bool> {
    (j: nat) => HasUploadedFileRtm(s, name, buffer(j))
  }

  /** An attempt of the file wait that breaks out saw the bot's file. */
  lemma FileAttemptFinds(s: Session, name: string, buffer: nat -> seq<Event>, j: nat)
    requires FileAttempts(s, name, buffer)(j) == Ok(true)
    ensures HoldsBotFile(s, name, buffer(j))
  {
    assert HasUploadedFileRtm(s, name, buffer(j)) == Ok(true);
  }

  /** An attempt of the file wait that keeps waiting read its whole buffer
      without finding the bot's file. */
  lemma FileAttemptWaits(s: Session, name: string, buffer: nat -> seq<Event>, j: nat)
    requires FileAttempts(s, name, buffer)(j) == Ok(false)
    ensures AllFileReadable(name, buffer(j)) && !HoldsBotFile(s, name, buffer(j))
  {
    assert HasUploadedFileRtm(s, name, buffer(j)) == Ok(false);
  }

  /** An attempt of the file wait that raises met an unreadable event. */
  lemma FileAttemptRaises(s: Session, name: string, buffer: nat -> seq<Event>, j: nat)
    requires FileAttempts(s, name, buffer)(j).Err?
    ensures !AllFileReadable(name, buffer(j))
    ensures FileAttempts(s, name, buffer)(j).error.KeyError?
  {
    assert HasUploadedFileRtm(s, name, buffer(j)).Err?;
  }

  /** `wait_for_file_uploaded(name, maxwait)`. */
  function WaitForFileUploaded(s: Session, name: string, buffer: nat -> seq<Event>, maxwait: int): (r: LoopEnd)
    ensures r.attempts <= Iterations(maxwait)
    ensures r.outcome.Fail? ==> r.outcome.error == FileTimeout(name) || r.outcome.error.KeyError?
  {
    assert forall j: nat :: FileAttempts(s, name, buffer)(j) == HasUploadedFileRtm(s, name, buffer(j));
    BreakingPoll(maxwait, FileAttempts(s, name, buffer), FileTimeout(name));
    PollFrom(0, maxwait, FileAttempts(s, name, buffer), Fail(FileTimeout(name)))
  }

  /** The wait returns only once a scanned buffer holds the bot's file,
      every earlier buffer having been read in full without it. */
  lemma WaitForFileUploadedReturns(s: Session, name: string, buffer: nat -> seq<Event>, maxwait: int)
    ensures var r := WaitForFileUploaded(s, name, buffer, maxwait);
      r.outcome == Pass ==>
        && 1 <= r.attempts
        && HoldsBotFile(s, name, buffer(r.attempts - 1))
        && forall j: nat :: j < r.attempts - 1 ==>
             AllFileReadable(name, buffer(j)) && !HoldsBotFile(s, name, buffer(j))
  {
    var attempt := FileAttempts(s, name, buffer);
    var r := WaitForFileUploaded(s, name, buffer, maxwait);
    assert r == PollFrom(0, maxwait, attempt, Fail(FileTimeout(name)));
    BreakingPoll(maxwait, attempt, FileTimeout(name));
    if r.outcome == Pass {
      FileAttemptFinds(s, name, buffer, r.attempts - 1);
      forall j: nat | j < r.attempts - 1
        ensures AllFileReadable(name, buffer(j)) && !HoldsBotFile(s, name, buffer(j))
      {
        assert attempt(j) == Ok(false);
        FileAttemptWaits(s, name, buffer, j);
      }
    }
  }


  /** The wait raises either the timeout error after all its attempts, or
      the `KeyError` of a buffer that holds an event the scan cannot read. */
  lemma WaitForFileUploadedRaises(s: Session, name: string, buffer: nat -> seq<Event>, maxwait: int)
    ensures var r := WaitForFileUploaded(s, name, buffer, maxwait);
      r.outcome.Fail? ==>
        || (r.attempts == Iterations(maxwait) && r.outcome.error == FileTimeout(name))
        || (1 <= r.attempts && r.outcome.error.KeyError? && !AllFileReadable(name, buffer(r.attempts - 1)))
  {
    var attempt := FileAttempts(s, name, buffer);
    var r := WaitForFileUploaded(s, name, buffer, maxwait);
    assert r == PollFrom(0, maxwait, attempt, Fail(FileTimeout(name)));
    BreakingPoll(maxwait, attempt, FileTimeout(name));
    if r.outcome.Fail? && r != LoopEnd(Iterations(maxwait), Fail(FileTimeout(name))) {
      assert attempt(r.attempts - 1) == Err(r.outcome.error);
      FileAttemptRaises(s, name, buffer, r.attempts - 1);
    }
  }


  /** With every key the scan reads present, the wait returns exactly when
      some attempt's buffer holds the bot's file, and otherwise raises the
      timeout error after `maxwait` attempts. */
  lemma WaitForFileUploadedReadable(s: Session, name: string, buffer: nat -> seq<Event>, maxwait: int)
    requires forall j: nat :: j < maxwait ==> AllFileReadable(name, buffer(j))
    ensures WaitForFileUploaded(s, name, buffer, maxwait).outcome == Pass <==>
      exists j: nat :: j < maxwait && HoldsBotFile(s, name, buffer(j))
    ensures WaitForFileUploaded(s, name, buffer, maxwait).outcome != Pass ==>
      WaitForFileUploaded(s, name, buffer, maxwait) == LoopEnd(Iterations(maxwait), Fail(FileTimeout(name)))
  {
    var attempt := FileAttempts(s, name, buffer);
    assert forall j: nat :: j < maxwait ==> attempt(j) == Ok(HoldsBotFile(s, name, buffer(j)));
    PollWithoutErrors(maxwait, attempt, Fail(FileTimeout(name)));
  }

  // ---------------------------------------------------------------------
  // ensure_no_channel_reply_from_bot_rtm
  // ---------------------------------------------------------------------

  /** The first `k` events all have a type and none is a bot channel message. */
  predicate QuietBefore(s: Session, events: seq<Event>, k: nat) {
    k <= |events| && forall j :: 0 <= j < k ==> IsBotMessage(s, events[j]) == Ok(false)
  }

  predicate Quiet(s: Session, events: seq<Event>) {
    QuietBefore(s, events, |events|)
  }

  function UnexpectedReply(text: string): Failure {
    AssertionError("expected to get nothing, but got message \"" + text + "\"")
  }

  /** What the scan raises on reaching event `e`: a missing type, or a bot
      message reported with its text (itself a missing key when absent). */
  predicate Offends(s: Session, e: Event, error: Failure) {
    || (e.kind.None? && error == KeyError("type"))
    || (BotAuthored(s, e) && e.text.None? && error == KeyError("text"))
    || (BotAuthored(s, e) && e.text.Some? && error == UnexpectedReply(e.text.value))
  }

  /** The scan stops at event `k` of the buffer, raising `error`. */
  predicate StopsAt(s: Session, events: seq<Event>, k: nat, error: Failure) {
    k < |events| && QuietBefore(s, events, k) && Offends(s, events[k], error)
  }

  /** The scan of the buffer stops somewhere, raising `error`. */
  predicate Raises(s: Session, events: seq<Event>, error: Failure) {
    exists k: nat :: k < |events| && StopsAt(s, events, k, error)
  }

  /** One attempt of `ensure_no_channel_reply_from_bot_rtm`: scans the
      buffer and raises at the first bot channel message. It never breaks
      out of the loop. */
  function NoBotReplyAttempt(s: Session, events: seq<Event>): (r: Result<bool>)
    ensures r != Ok(true)
    ensures r == Ok(false) <==> Quiet(s, events)
    ensures r.Err? ==> Raises(s, events, r.error)
  {
    var test := (e: Event) => IsBotMessage(s, e);
    assert forall e :: test(e) == IsBotMessage(s, e);
    match FindFirst(events, test)
    case Err(e) =>
      var k: nat :| k < |events| && PassesBefore(events, test, k) && test(events[k]) == Err(e);
      assert StopsAt(s, events, k, e);
      Err(e)
    case Ok(None) => Ok(false)
    case Ok(Some(k)) =>
      match events[k].text
      case None =>
        assert StopsAt(s, events, k, KeyError("text"));
        Err(KeyError("text"))
      case Some(t) =>
        assert StopsAt(s, events, k, UnexpectedReply(t));
        Err(UnexpectedReply(t))
  }

  function NoReplyAttempts(s: Session, buffer: nat -> seq<Event>): nat -> Result<bool> {
    (j: nat) => NoBotReplyAttempt(s, buffer(j))
  }

  /** `ensure_no_channel_reply_from_bot_rtm(wait)`, also available as
      `ensure_no_channel_reply_from_bot`: it never returns before making
      all its attempts. */
  function EnsureNoChannelReplyRtm(s: Session, wait: int, buffer: nat -> seq<Event>): (r: LoopEnd)
    ensures r.attempts <= Iterations(wait)
    ensures r.outcome == Pass ==> r.attempts == Iterations(wait)
  {
    assert forall j: nat :: NoReplyAttempts(s, buffer)(j) == NoBotReplyAttempt(s, buffer(j));
    SilentPoll(wait, NoReplyAttempts(s, buffer));
    PollFrom(0, wait, NoReplyAttempts(s, buffer), Pass)
  }

  /** The check returns after `wait` polls exactly when every polled buffer
      was quiet; otherwise it raises on the first poll whose buffer was not,
      with what the scan of that buffer raised. */
  lemma EnsureNoChannelReplyEnds(s: Session, wait: int, buffer: nat -> seq<Event>)
    ensures EnsureNoChannelReplyRtm(s, wait, buffer).outcome == Pass <==>
      forall j: nat :: j < wait ==> Quiet(s, buffer(j))
    ensures var r := EnsureNoChannelReplyRtm(s, wait, buffer);
      r.outcome == Pass ==> r.attempts == Iterations(wait)
    ensures var r := EnsureNoChannelReplyRtm(s, wait, buffer);
      r.outcome.Fail? ==>
        && 1 <= r.attempts <= wait
        && (forall j: nat :: j < r.attempts - 1 ==> Quiet(s, buffer(j)))
        && Raises(s, buffer(r.attempts - 1), r.outcome.error)
  {
    var attempt := NoReplyAttempts(s, buffer);
    assert forall j: nat :: attempt(j) == NoBotReplyAttempt(s, buffer(j));
    assert forall j: nat :: attempt(j) == Ok(false) <==> Quiet(s, buffer(j));
    SilentPoll(wait, attempt);
  }

  /** The first poll whose buffer is not quiet ends the check at once, with
      the remaining polls never made. */
  lemma EnsureNoChannelReplyStopsEarly(s: Session, wait: int, buffer: nat -> seq<Event>, k: nat)
    requires k < wait
    requires forall j: nat :: j < k ==> Quiet(s, buffer(j))
    requires !Quiet(s, buffer(k))
    ensures EnsureNoChannelReplyRtm(s, wait, buffer).attempts == k + 1
    ensures EnsureNoChannelReplyRtm(s, wait, buffer).outcome.Fail?
  {
    EnsureNoChannelReplyEnds(s, wait, buffer);
    var r := EnsureNoChannelReplyRtm(s, wait, buffer);
    assert r.outcome != Pass;
  }
}
