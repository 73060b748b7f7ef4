/** Realtime events as the driver sees them after JSON decoding, the
    identities fixed at session start, and the classification and buffer
    scans of `Driver` (`_is_bot_message`, `_has_uploaded_file_rtm`,
    `_has_got_message_rtm`). A field missing from the decoded mapping is
    `None`; reading it with `event[key]` raises `KeyError(key)`. */
module Events {
  import opened Outcomes
  import opened Text

  datatype FileInfo = FileInfo(name: Option<string>, user: Option<string>)

  /** One decoded realtime event: its `type`, and the payload fields the
      driver reads. */
  datatype Event = Event(
    kind: Option<string>,
    channel: Option<string>,
    user: Option<string>,
    username: Option<string>,
    text: Option<string>,
    file: Option<FileInfo>)

  /** The identities the driver holds once bootstrap has completed. */
  datatype Session = Session(
    driverName: string,
    driverId: string,
    botName: string,
    botId: string,
    dmChannel: string,
    channel: string)

  /** Channel ids of public channels start with 'C'; direct conversations
      do not. */
  predicate IsPublicChannel(channel: string) {
    StartsWith(channel, "C")
  }

  // ---------------------------------------------------------------------
  // The in-order scan `for event in events: ...` shared by every check
  // ---------------------------------------------------------------------

  /** No element before index `k` makes `test` stop or raise. */
  predicate PassesBefore<T>(xs: seq<T>, test: T -> Result<bool>, k: nat) {
    k <= |xs| && forall j :: 0 <= j < k ==> test(xs[j]) == Ok(false)
  }

  /** Scans `xs` in order and stops at the first element for which `test`
      holds (its index) or raises (the error); `None` when it runs off the
      end. */
  function FindFirst<T>(xs: seq<T>, test: T -> Result<bool>): (r: Result<Option<nat>>)
    ensures r == Ok(None) <==> PassesBefore(xs, test, |xs|)
    ensures r.Ok? && r.value.Some? ==>
      r.value.value < |xs| && PassesBefore(xs, test, r.value.value) && test(xs[r.value.value]) == Ok(true)
    ensures r.Err? ==>
      exists k :: 0 <= k < |xs| && PassesBefore(xs, test, k) && test(xs[k]) == Err(r.error)
    decreases |xs|
  {
    if |xs| == 0 then Ok(None)
    else
      match test(xs[0])
      case Err(e) =>
        assert PassesBefore(xs, test, 0);
        Err(e)
      case Ok(true) => Ok(Some(0))
      case Ok(false) =>
        var tail := xs[1..];
        assert forall j :: 1 <= j < |xs| ==> xs[j] == tail[j - 1];
        match FindFirst(tail, test)
        case Ok(None) => Ok(None)
        case Ok(Some(k)) => Ok(Some(k + 1))
        case Err(e) =>
          var k :| 0 <= k < |tail| && PassesBefore(tail, test, k) && test(tail[k]) == Err(e);
          assert PassesBefore(xs, test, k + 1);
          Err(e)
  }

  /** The first element that does not pass decides the scan: it reports
      that element's index, or raises its error, whatever follows. */
  lemma FindFirstStopsAt<T>(xs: seq<T>, test: T -> Result<bool>, k: nat)
    requires k < |xs| && PassesBefore(xs, test, k) && test(xs[k]) != Ok(false)
    ensures test(xs[k]).Err? ==> FindFirst(xs, test) == Err(test(xs[k]).error)
    ensures test(xs[k]).Ok? ==> FindFirst(xs, test) == Ok(Some(k))
  {
    var r := FindFirst(xs, test);
    assert !PassesBefore(xs, test, |xs|);
    if r.Ok? {
      var i := r.value.value;
      assert PassesBefore(xs, test, i) && test(xs[i]) != Ok(false);
      assert i == k;
    } else {
      var i :| 0 <= i < |xs| && PassesBefore(xs, test, i) && test(xs[i]) == Err(r.error);
      assert i == k;
    }
  }

  /** Two sequences on which the test gives the same answers, place by
      place, are scanned alike. */
  lemma {:induction false} FindFirstSameAnswers<T>(xs: seq<T>, ys: seq<T>, test: T -> Result<bool>)
    requires |xs| == |ys|
    requires forall k :: 0 <= k < |xs| ==> test(xs[k]) == test(ys[k])
    ensures FindFirst(xs, test) == FindFirst(ys, test)
    decreases |xs|
  {
    if |xs| > 0 {
      assert forall k :: 0 <= k < |xs| - 1 ==> xs[1..][k] == xs[k + 1] && ys[1..][k] == ys[k + 1];
      FindFirstSameAnswers(xs[1..], ys[1..], test);
    }
  }

  /** A found index reports true; no index and no error reports false. */
  function Found(r: Result<Option<nat>>): Result<bool> {
    match r
    case Err(e) => Err(e)
    case Ok(k) => Ok(k.Some?)
  }

  // ---------------------------------------------------------------------
  // _is_bot_message
  // ---------------------------------------------------------------------

  /** The event's channel, read with `get` and the empty string as the
      default when the key is missing. */
  function ChannelOf(e: Event): string {
    match e.channel
    case Some(c) => c
    case None => ""
  }

  /** A message posted in a public channel by the bot, recognised by its
      user id or by its display name. */
  predicate BotAuthored(s: Session, e: Event) {
    && e.kind == Some("message")
    && IsPublicChannel(ChannelOf(e))
    && (e.user == Some(s.botId) || e.username == Some(s.botName))
  }

  /** `_is_bot_message`: reading `msg['type']` raises when the event has no
      type; the other fields are read with `get` and never raise. */
  function IsBotMessage(s: Session, e: Event): (r: Result<bool>)
    ensures r.Err? <==> e.kind.None?
    ensures r.Err? ==> r.error == KeyError("type")
    ensures r.Ok? ==> (r.value <==> BotAuthored(s, e))
  {
    match e.kind
    case None => Err(KeyError("type"))
    case Some(t) =>
      if t != "message" then Ok(false)
      else if !IsPublicChannel(ChannelOf(e)) then Ok(false)
      else Ok(e.user == Some(s.botId) || e.username == Some(s.botName))
  }

  /** Messages in a direct conversation never count as bot channel
      messages, whoever wrote them. */
  lemma DirectMessagesNeverBotAuthored(s: Session, e: Event)
    requires e.kind.Some? && e.channel.Some? && !IsPublicChannel(e.channel.value)
    ensures IsBotMessage(s, e) == Ok(false)
  {
  }

  /** The echo of a message the driver posted itself (its own id, or its own
      display name) is not taken for the bot's, as long as driver and bot
      identities differ. */
  lemma OwnPostsNeverBotAuthored(s: Session, e: Event)
    requires s.driverId != s.botId && s.driverName != s.botName
    requires e.kind.Some?
    requires e.user == Some(s.driverId) || e.user.None?
    requires e.username == Some(s.driverName) || e.username.None?
    ensures IsBotMessage(s, e) == Ok(false)
  {
  }

  // ---------------------------------------------------------------------
  // _has_uploaded_file_rtm
  // ---------------------------------------------------------------------

  /** A `file_shared` event for a file called `name` owned by the bot. */
  predicate IsBotFile(s: Session, name: string, e: Event) {
    && e.kind == Some("file_shared")
    && e.file.Some?
    && e.file.value.name == Some(name)
    && e.file.value.user == Some(s.botId)
  }

  /** Every key the file test reads of `e` is present: the type; for a
      `file_shared` event the file and its name; and, only when that name is
      the one sought, the file's user. */
  predicate FileReadable(name: string, e: Event) {
    && e.kind.Some?
    && (e.kind == Some("file_shared") ==>
          && e.file.Some? && e.file.value.name.Some?
          && (e.file.value.name == Some(name) ==> e.file.value.user.Some?))
  }

  /** The per-event test of `_has_uploaded_file_rtm`; the `and` chain reads
      `type`, then `file` and its `name`, and only for a matching name the
      file's `user`. */
  function UploadedFileTest(s: Session, name: string, e: Event): (r: Result<bool>)
    ensures r.Err? <==> !FileReadable(name, e)
    ensures r.Ok? ==> (r.value <==> IsBotFile(s, name, e))
    ensures r.Err? ==> r.error.KeyError?
    ensures r.Err? ==> r.error == KeyError(
      if e.kind.None? then "type"
      else if e.file.None? then "file"
      else if e.file.value.name.None? then "name"
      else "user")
  {
    match e.kind
    case None => Err(KeyError("type"))
    case Some(t) =>
      if t != "file_shared" then Ok(false)
      else match e.file
        case None => Err(KeyError("file"))
        case Some(f) =>
          match f.name
          case None => Err(KeyError("name"))
          case Some(n) =>
            if n != name then Ok(false)
            else match f.user
              case None => Err(KeyError("user"))
              case Some(u) => Ok(u == s.botId)
  }

  /** The buffer holds the sharing of a file called `name` by the bot. */
  predicate HoldsBotFile(s: Session, name: string, events: seq<Event>) {
    exists k :: 0 <= k < |events| && IsBotFile(s, name, events[k])
  }

  /** Every event of the buffer can be read by the file scan. */
  predicate AllFileReadable(name: string, events: seq<Event>) {
    forall k :: 0 <= k < |events| ==> FileReadable(name, events[k])
  }

  /** The file scan raises at event `k`: every earlier event was read and is
      not the bot's file, and event `k` lacks a key the test reads. */
  predicate FileScanRaisesAt(s: Session, name: string, events: seq<Event>, k: int) {
    && 0 <= k < |events|
    && (forall j :: 0 <= j < k ==> FileReadable(name, events[j]) && !IsBotFile(s, name, events[j]))
    && !FileReadable(name, events[k])
  }

  /** `_has_uploaded_file_rtm(name)`: whether the bot has shared a file
      called `name`, raising at the first event that lacks a key the test
      reads before such a file is found. */
  function HasUploadedFileRtm(s: Session, name: string, events: seq<Event>): (r: Result<bool>)
    ensures r == Ok(true) ==> HoldsBotFile(s, name, events)
    ensures r == Ok(false) <==> AllFileReadable(name, events) && !HoldsBotFile(s, name, events)
    ensures AllFileReadable(name, events) ==> r == Ok(HoldsBotFile(s, name, events))
    ensures r.Err? <==> exists k :: FileScanRaisesAt(s, name, events, k)
    ensures r.Err? ==> r.error.KeyError?
  {
    var test := (e: Event) => UploadedFileTest(s, name, e);
    assert forall e :: test(e) == UploadedFileTest(s, name, e);
    var found := FindFirst(events, test);
    assert found.Err? ==> exists k :: FileScanRaisesAt(s, name, events, k) by {
      if found.Err? {
        var k :| 0 <= k < |events| && PassesBefore(events, test, k) && test(events[k]) == Err(found.error);
        assert FileScanRaisesAt(s, name, events, k);
      }
    }
    Found(found)
  }

  /** The scan raises what the test raises at the event where it stops. */
  lemma FileScanRaisesThere(s: Session, name: string, events: seq<Event>, k: int)
    requires FileScanRaisesAt(s, name, events, k)
    ensures HasUploadedFileRtm(s, name, events) == UploadedFileTest(s, name, events[k])
  {
    var test := (e: Event) => UploadedFileTest(s, name, e);
    assert forall e :: test(e) == UploadedFileTest(s, name, e);
    FindFirstStopsAt(events, test, k);
  }

  /** A file of the right name shared by anyone but the bot never satisfies
      the check. */
  lemma OtherUploadersIgnored(s: Session, name: string, events: seq<Event>)
    requires AllFileReadable(name, events)
    requires forall k :: 0 <= k < |events| && events[k].file.Some? ==>
      events[k].file.value.user != Some(s.botId)
    ensures HasUploadedFileRtm(s, name, events) == Ok(false)
  {
  }

  // ---------------------------------------------------------------------
  // _has_got_message_rtm
  // ---------------------------------------------------------------------

  /** The regular expression actually searched for: in a public channel the
      user's pattern must follow the escaped mention of the driver and a
      colon, `\<@DRIVERID\>: `. */
  function MessagePattern(s: Session, channel: string, pattern: string): (r: string)
    ensures IsPublicChannel(channel) ==>
      StartsWith(r, "\\<@" + s.driverId + "\\>: ") && |pattern| <= |r| && r[|r| - |pattern|..] == pattern
    ensures IsPublicChannel(channel) ==> |r| == 7 + |s.driverId| + |pattern|
    ensures !IsPublicChannel(channel) ==> r == pattern
  {
    if IsPublicChannel(channel) then "\\<@" + s.driverId + "\\>: " + pattern else pattern
  }

  /** The public-channel case of `MessagePattern` as one equation, stated
      apart so that a caller needing the exact text uses it instead of
      searching through the contract's prefix, suffix and length clauses. */
  lemma PublicMessagePattern(s: Session, channel: string, pattern: string)
    requires IsPublicChannel(channel)
    ensures MessagePattern(s, channel, pattern) == "\\<@" + s.driverId + "\\>: " + pattern
  {
  }

  /** A message event whose text the matcher accepts. */
  predicate MessageMatching(e: Event, regex: string, matches: (string, string) -> bool) {
    e.kind == Some("message") && e.text.Some? && matches(regex, e.text.value)
  }

  /** Every key the message test reads of `e` is present: the type, and
      for a message its text. */
  predicate MessageReadable(e: Event) {
    e.kind.Some? && (e.kind == Some("message") ==> e.text.Some?)
  }

  /** The per-event test of `_has_got_message_rtm`: `type` is read first,
      and `text` only for message events. */
  function MessageTest(regex: string, matches: (string, string) -> bool, e: Event): (r: Result<bool>)
    ensures r.Err? <==> !MessageReadable(e)
    ensures r.Ok? ==> (r.value <==> MessageMatching(e, regex, matches))
    ensures r.Err? ==> r.error == KeyError(if e.kind.None? then "type" else "text")
  {
    match e.kind
    case None => Err(KeyError("type"))
    case Some(t) =>
      if t != "message" then Ok(false)
      else match e.text
        case None => Err(KeyError("text"))
        case Some(txt) => Ok(matches(regex, txt))
  }

  /** The buffer holds a message whose text the matcher accepts for the
      regular expression `regex`. */
  predicate HoldsMatch(events: seq<Event>, regex: string, matches: (string, string) -> bool) {
    exists k :: 0 <= k < |events| && MessageMatching(events[k], regex, matches)
  }

  /** Every event of the buffer can be read by the message scan. */
  predicate AllMessageReadable(events: seq<Event>) {
    forall k :: 0 <= k < |events| ==> MessageReadable(events[k])
  }

  /** The message scan raises at event `k`: every earlier event was read and
      does not match, and event `k` lacks a key the test reads. */
  predicate MessageScanRaisesAt(events: seq<Event>, regex: string, matches: (string, string) -> bool, k: int) {
    && 0 <= k < |events|
    && (forall j :: 0 <= j < k ==> MessageReadable(events[j]) && !MessageMatching(events[j], regex, matches))
    && !MessageReadable(events[k])
  }

  /** `_has_got_message_rtm(channel, match)`, with `re.match(p, text,
      re.DOTALL)` given as the predicate `matches(p, text)`: whether a
      buffered message matches, raising at the first event that lacks a key
      the test reads before a match is found. */
  function HasGotMessageRtm(s: Session, channel: string, pattern: string, events: seq<Event>,
                            matches: (string, string) -> bool): (r: Result<bool>)
    ensures r == Ok(true) ==> HoldsMatch(events, MessagePattern(s, channel, pattern), matches)
    ensures r == Ok(false) <==>
      AllMessageReadable(events) && !HoldsMatch(events, MessagePattern(s, channel, pattern), matches)
    ensures AllMessageReadable(events) ==> r == Ok(HoldsMatch(events, MessagePattern(s, channel, pattern), matches))
    ensures r.Err? <==> exists k :: MessageScanRaisesAt(events, MessagePattern(s, channel, pattern), matches, k)
    ensures r.Err? ==> r.error == KeyError("type") || r.error == KeyError("text")
  {
    var regex := MessagePattern(s, channel, pattern);
    var test := (e: Event) => MessageTest(regex, matches, e);
    assert forall e :: test(e) == MessageTest(regex, matches, e);
    var found := FindFirst(events, test);
    assert found.Err? ==> exists k :: MessageScanRaisesAt(events, regex, matches, k) by {
      if found.Err? {
        var k :| 0 <= k < |events| && PassesBefore(events, test, k) && test(events[k]) == Err(found.error);
        assert MessageScanRaisesAt(events, regex, matches, k);
      }
    }
    Found(found)
  }

  /** The scan raises what the test raises at the event where it stops. */
  lemma MessageScanRaisesThere(s: Session, channel: string, pattern: string, events: seq<Event>,
                               matches: (string, string) -> bool, k: int)
    requires MessageScanRaisesAt(events, MessagePattern(s, channel, pattern), matches, k)
    ensures HasGotMessageRtm(s, channel, pattern, events, matches) ==
      MessageTest(MessagePattern(s, channel, pattern), matches, events[k])
  {
    var regex := MessagePattern(s, channel, pattern);
    var test := (e: Event) => MessageTest(regex, matches, e);
    assert forall e :: test(e) == MessageTest(regex, matches, e);
    FindFirstStopsAt(events, test, k);
  }

  /** The buffers hold the same events in the same order, except perhaps
      for the conversation each event names. */
  predicate SameButConversations(events: seq<Event>, others: seq<Event>) {
    && |events| == |others|
    && forall k :: 0 <= k < |events| ==> others[k] == events[k].(channel := others[k].channel)
  }

  /** The message scan never reads an event's conversation: the channel
      argument only decides the mention prefix, so a matching message in
      any conversation satisfies it. */
  lemma MessageScanIgnoresConversation(s: Session, channel: string, pattern: string, events: seq<Event>,
                                       others: seq<Event>, matches: (string, string) -> bool)
    requires SameButConversations(events, others)
    ensures HasGotMessageRtm(s, channel, pattern, others, matches) ==
      HasGotMessageRtm(s, channel, pattern, events, matches)
  {
    var regex := MessagePattern(s, channel, pattern);
    var test := (e: Event) => MessageTest(regex, matches, e);
    assert forall e :: test(e) == MessageTest(regex, matches, e);
    forall k | 0 <= k < |events| ensures test(events[k]) == test(others[k]) {
      assert others[k].kind == events[k].kind && others[k].text == events[k].text;
    }
    FindFirstSameAnswers(events, others, test);
  }
}
