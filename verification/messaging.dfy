/** Outgoing messages (`send_direct_message`, `send_channel_message`) and
    the mention convention they share with the bot's replies: a message
    addressed to a user starts `<@USERID>`, optionally followed by a colon,
    then a space and the body. */
module Messaging {
  import opened Outcomes
  import opened Text
  import opened Events
  import opened LiteralPattern

  /** A `chat.post_message` request: conversation id, text, and the display
      name shown as author. */
  datatype Post = Post(channel: string, text: string, username: string)

  /** A message addressed to `target`, with or without the colon. */
  datatype Mention = Mention(target: string, colon: bool, body: string)

  /** The text of a message addressed to `m.target`: the id between `<@`
      and `>`, the colon when asked for, a space, then the body. Whenever
      the id holds no `>`, the text reads back as the mention it was made
      from. */
  function FormatMention(m: Mention): (r: string)
    ensures '>' !in m.target ==> ParseMention(r) == Some(m)
  {
    var after := (if m.colon then ":" else "") + " " + m.body;
    var r := "<@" + m.target + ">" + after;
    assert '>' !in m.target ==> ParseMention(r) == Some(m) by {
      if '>' !in m.target {
        ParseFormattedAfterTarget(m.target, m.colon, m.body);
        ParseMentionSplitsAtTarget(m.target, after);
      }
    }
    r
  }

  /** Reads a mention back: the id runs up to the first `>`, then either
      `: ` or a single space precedes the body. */
  function ParseMention(text: string): (r: Option<Mention>)
    ensures r.Some? ==> '>' !in r.value.target
  {
    if !StartsWith(text, "<@") then None
    else
      var rest := text[2..];
      match IndexOf(rest, '>')
      case None => None
      case Some(i) => ParseAfterTarget(rest[..i], rest[i + 1..])
  }

  /** What follows the `>` closing the target: `: ` or a single space, then
      the body. */
  function ParseAfterTarget(target: string, after: string): Option<Mention> {
    if StartsWith(after, ": ") then Some(Mention(target, true, after[2..]))
    else if StartsWith(after, " ") then Some(Mention(target, false, after[1..]))
    else None
  }

  /** Every mention whose target holds no `>` reads back as written. */
  lemma ParseMentionSplitsAtTarget(target: string, after: string)
    requires '>' !in target
    ensures ParseMention("<@" + target + ">" + after) == ParseAfterTarget(target, after)
  {
    var rest := target + ['>'] + after;
    var text := "<@" + target + ">" + after;
    assert text == "<@" + rest;
    assert StartsWith(text, "<@");
    assert text[2..] == rest;
    IndexOfAfter(target, '>', after);
    assert rest[..|target|] == target;
    assert rest[|target| + 1..] == after;
  }

  lemma ParseFormattedAfterTarget(target: string, colon: bool, body: string)
    ensures ParseAfterTarget(target, (if colon then ":" else "") + " " + body) == Some(Mention(target, colon, body))
  {
    var after := (if colon then ":" else "") + " " + body;
    if colon {
      assert after == ": " + body;
      assert after[..2] == ": ";
      assert after[2..] == body;
    } else {
      assert after == " " + body;
      assert after[0] == ' ' && after[..1] == " ";
      assert after[1..] == body;
    }
  }

  lemma FormatParsedMention(text: string)
    requires ParseMention(text).Some?
    ensures FormatMention(ParseMention(text).value) == text
  {
    var rest := text[2..];
    var i := IndexOf(rest, '>').value;
    var target, after := rest[..i], rest[i + 1..];
    assert text == "<@" + target + ">" + after by {
      SplitAroundTarget(text, i);
    }
    assert ParseMention(text) == ParseAfterTarget(target, after);
    FormatParsedAfterTarget(target, after);
  }

  /** A text that starts with `<@` and holds `>` at offset `i` after it is
      the three pieces around that `>`. */
  lemma SplitAroundTarget(text: string, i: nat)
    requires StartsWith(text, "<@") && i < |text| - 2 && text[2..][i] == '>'
    ensures text == "<@" + text[2..][..i] + ">" + text[2..][i + 1..]
  {
    var rest := text[2..];
    assert text == text[..2] + rest;
    assert rest == rest[..i] + [rest[i]] + rest[i + 1..];
  }

  lemma FormatParsedAfterTarget(target: string, after: string)
    requires ParseAfterTarget(target, after).Some?
    ensures FormatMention(ParseAfterTarget(target, after).value) == "<@" + target + ">" + after
  {
    if StartsWith(after, ": ") {
      assert after == ": " + after[2..];
    } else {
      assert after == " " + after[1..];
    }
  }

  /** `send_channel_message(msg, tobot, colon)`: posted to the test channel
      under the driver's name; addressed to the bot it reads back as a
      mention of the bot's id carrying `msg`, otherwise it is `msg` itself. */
  function SendChannelMessage(s: Session, msg: string, tobot: bool, colon: bool): (p: Post)
    ensures p.channel == s.channel && p.username == s.driverName
    ensures !tobot ==> p.text == msg
    ensures tobot ==> StartsWith(p.text, "<@" + s.botId + ">") && |msg| < |p.text|
    ensures tobot && '>' !in s.botId ==> ParseMention(p.text) == Some(Mention(s.botId, colon, msg))
  {
    var text := if tobot then FormatMention(Mention(s.botId, colon, msg)) else msg;
    Post(s.channel, text, s.driverName)
  }

  /** In a public channel, with a driver id and a user pattern free of
      regular-expression operators, the searched pattern accepts exactly the
      texts that begin with the driver's mention, a colon, a space, and the
      pattern's literal. */
  lemma ChannelPatternRequiresMention(s: Session, channel: string, pattern: string, text: string)
    requires IsPublicChannel(channel)
    requires Plain(s.driverId)
    requires Literal(pattern).Some?
    ensures LiteralMatch(MessagePattern(s, channel, pattern), text) <==>
      StartsWith(text, "<@" + s.driverId + ">: " + Literal(pattern).value)
  {
    PublicMessagePattern(s, channel, pattern);
    assert "\\<@" + s.driverId + "\\>: " + pattern ==
      ['\\', '<'] + ("@" + s.driverId + (['\\', '>'] + (": " + pattern)));
    MentionPatternLiteral(s.driverId, pattern);
  }

  /** The literal behind `\<@ID\>: PATTERN`. */
  lemma MentionPatternLiteral(id: string, pattern: string)
    requires Plain(id)
    requires Literal(pattern).Some?
    ensures Literal(['\\', '<'] + ("@" + id + (['\\', '>'] + (": " + pattern)))) ==
      Some("<@" + id + ">: " + Literal(pattern).value)
  {
    var lit := Literal(pattern).value;
    assert ['<'] + ("@" + id + (['>'] + (": " + lit))) == "<@" + id + ">: " + lit;
    MentionTargetPlain(id);
    ColonSpacePlain();
    TwoEscapedRuns('<', "@" + id, '>', ": ", pattern, lit);
  }

  /** Two runs of ordinary characters, each behind an escaped
      non-alphanumeric character, stand for themselves in front of the
      literal that follows. */
  lemma TwoEscapedRuns(c1: char, a1: string, c2: char, a2: string, p: string, lp: string)
    requires !IsAlphaNumeric(c1) && Plain(a1)
    requires !IsAlphaNumeric(c2) && Plain(a2)
    requires Literal(p) == Some(lp)
    ensures Literal(['\\', c1] + (a1 + (['\\', c2] + (a2 + p)))) == Some([c1] + (a1 + ([c2] + (a2 + lp))))
  {
    EscapedThenPlain(c2, a2, p, lp);
    EscapedThenPlain(c1, a1, ['\\', c2] + (a2 + p), [c2] + (a2 + lp));
  }

  /** An escaped non-alphanumeric character followed by ordinary characters
      stands for those characters in front of the literal that follows. */
  lemma EscapedThenPlain(c: char, a: string, p: string, lp: string)
    requires !IsAlphaNumeric(c) && Plain(a)
    requires Literal(p) == Some(lp)
    ensures Literal(['\\', c] + (a + p)) == Some([c] + (a + lp))
  {
    LiteralOfPlainPrefix(a, p);
    LiteralOfEscapedChar(c, a + p);
  }

  lemma MentionTargetPlain(id: string)
    requires Plain(id)
    ensures Plain("@" + id)
  {
    var at := "@" + id;
    forall i | 0 <= i < |at| ensures !IsMeta(at[i]) {
      if i > 0 { assert at[i] == id[i - 1]; }
    }
  }

  lemma ColonSpacePlain()
    ensures Plain(": ")
  {
    assert !IsMeta(':') && !IsMeta(' ');
  }

  /** A reply the bot addresses to the driver in the `<@DRIVERID>: reply`
      form satisfies the channel wait for a literal pattern exactly when the
      reply starts with that literal. */
  lemma BotReplyToDriverMatches(s: Session, channel: string, pattern: string, reply: string)
    requires IsPublicChannel(channel)
    requires Plain(s.driverId)
    requires Literal(pattern).Some?
    ensures LiteralMatch(MessagePattern(s, channel, pattern), FormatMention(Mention(s.driverId, true, reply))) <==>
      StartsWith(reply, Literal(pattern).value)
  {
    var text := FormatMention(Mention(s.driverId, true, reply));
    var prefix := "<@" + s.driverId + ">: ";
    assert text == prefix + reply;
    StartsWithAfterPrefix(prefix, reply, Literal(pattern).value);
    ChannelPatternRequiresMention(s, channel, pattern, text);
  }

  /** The example of a channel exchange: with driver id `U1` and pattern
      `hi`, the text `<@U1>: hi` is accepted and the bare `hi` is not. */
  lemma ChannelPatternExample(s: Session)
    requires s.driverId == "U1"
    ensures LiteralMatch(MessagePattern(s, "C1", "hi"), "<@U1>: hi")
    ensures !LiteralMatch(MessagePattern(s, "C1", "hi"), "hi")
  {
    assert Plain("U1");
    assert Plain("hi");
    LiteralOfPlainPrefix("hi", "");
    assert "hi" + "" == "hi";
    assert Literal("hi") == Some("hi");
    assert IsPublicChannel("C1");
    ChannelPatternRequiresMention(s, "C1", "hi", "<@U1>: hi");
    ChannelPatternRequiresMention(s, "C1", "hi", "hi");
  }
}
