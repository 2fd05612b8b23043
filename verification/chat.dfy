/** The message records the handlers read and the replies they produce. The
    messaging client is outside the model: an event arrives as a `Message`, and each
    `reply` or `sendMessage` a handler performs is returned as an `Outbound` value,
    in the order the handler issues it. */
module Chat {
  import opened Wrappers
  import Calendar
  import Text
  import JsNumber

  /** The fields of a quoted (replied-to) message that `getIsReel` reads. */
  datatype Quoted = Quoted(body: string, timestamp: int)

  /** An inbound or newly created message; `quoted` is None exactly when
      `hasQuotedMsg` is false, and `timestamp` is in seconds since the epoch. */
  datatype Message = Message(
    from: string,
    body: string,
    timestamp: int,
    fromMe: bool,
    hasMedia: bool,
    quoted: Option<Quoted>)

  type Byte = x: int | 0 <= x < 256

  /** A downloaded attachment. */
  datatype Media = Media(mimetype: string, data: seq<Byte>)

  /** The two texts the flood control sends with `sendMessage`, each a template with
      the two integers it interpolates: `Reels: ${count}/${of}` and `${count}/${of}`.
      `Quota.Render` writes them out. */
  datatype Notice = Tally(count: int, of: int) | Fraction(count: int, of: int)

  datatype Outbound =
    | Reply(text: string)          // msg.reply(text)
    | ReplyUndefined               // msg.reply(undefined): an out-of-range list lookup
    | ReplySticker(media: Media)   // msg.reply(media, undefined, { sendMediaAsSticker: true })
    | Send(notice: Notice)         // client.sendMessage(<the message's chat>, Render(notice))

  /** What the client delivers to the bot: a `message` event (an incoming message,
      with the time it is handled), a `message_create` event (any message created in
      an open chat, the account's own included), or the daily cron tick at local
      midnight. A `message_create` carries the outcome of the two client calls its
      sticker handler may make: what `downloadMedia()` yields and whether the sticker
      reply is delivered. */
  datatype Event =
    | Received(msg: Message, now: int)
    | Created(msg: Message, download: Option<Media>, delivered: bool)
    | Midnight

  /** The deployment: the REELS_FROM_NUMBER environment variable (None when unset) and
      the UTC offset of the host process's zone, in seconds, taken as fixed. */
  datatype Env = Env(reelsFromNumber: Option<string>, utcOffset: int)

  /** `${REELS_FROM_NUMBER}@c.us`; an unset variable interpolates as "undefined". */
  function MonitoredSender(env: Env): (sender: string)
    ensures env.reelsFromNumber.None? ==> sender == "undefined@c.us"
    ensures env.reelsFromNumber.Some? ==> sender == env.reelsFromNumber.value + "@c.us"
  {
    env.reelsFromNumber.GetOr("undefined") + "@c.us"
  }

  /** The body `getIsReel` tests: the quoted message's body when the message quotes
      one that is not from today, and the message's own body otherwise. */
  function ReelCandidateBody(msg: Message, now: int, utcOffset: int): (body: string)
    ensures msg.quoted.Some? && !Calendar.IsMessageToday(msg.quoted.value.timestamp, now, utcOffset)
      ==> body == msg.quoted.value.body
    ensures msg.quoted.None? || Calendar.IsMessageToday(msg.quoted.value.timestamp, now, utcOffset)
      ==> body == msg.body
  {
    match msg.quoted
    case Some(q) => if Calendar.IsMessageToday(q.timestamp, now, utcOffset) then msg.body else q.body
    case None => msg.body
  }

  /** Quoting a message from today changes nothing: the result is as if nothing were quoted. */
  lemma QuoteFromTodayIsIgnored(msg: Message, q: Quoted, now: int, utcOffset: int)
    requires Calendar.IsMessageToday(q.timestamp, now, utcOffset)
    ensures ReelCandidateBody(msg.(quoted := Some(q)), now, utcOffset)
         == ReelCandidateBody(msg.(quoted := None), now, utcOffset)
  {
  }

  /** Quoting an older message makes the message's own body irrelevant. */
  lemma OldQuoteHidesOwnBody(msg: Message, q: Quoted, otherBody: string, now: int, utcOffset: int)
    requires !Calendar.IsMessageToday(q.timestamp, now, utcOffset)
    ensures ReelCandidateBody(msg.(quoted := Some(q)), now, utcOffset)
         == ReelCandidateBody(msg.(quoted := Some(q), body := otherBody), now, utcOffset)
  {
  }

  /** The `!reels` command's argument as `Number(value)` reads it, when the message is
      the account's own, starts with `!reels` and splits on spaces into at least two
      pieces; None when the handler returns before converting. */
  function ReelsArgument(msg: Message): (arg: Option<JsNumber.Number>)
    ensures arg.Some? <==> msg.fromMe && Text.StartsWith(msg.body, "!reels") && ' ' in msg.body
    ensures arg.Some? ==> arg.value == JsNumber.ToNumber(Text.Split(msg.body, ' ')[1])
  {
    Text.SplitWhole(msg.body, ' ');
    if !msg.fromMe || !Text.StartsWith(msg.body, "!reels") then None
    else
      var parts := Text.Split(msg.body, ' ');
      if |parts| <= 1 then None else Some(JsNumber.ToNumber(parts[1]))
  }

  /** `!reels ` followed by a decimal integer is read back as that integer. */
  lemma ReelsArgumentOfCommand(msg: Message, n: int)
    requires msg.fromMe && msg.body == "!reels " + JsNumber.DecimalString(n)
    ensures ReelsArgument(msg) == Some(JsNumber.Int(n))
  {
    var ds := JsNumber.DecimalString(n);
    assert msg.body == "!reels" + [' '] + ds;
    assert msg.body[..6] == "!reels";
    Text.SplitPair("!reels", ds, ' ');
    JsNumber.ToNumberDecimalString(n);
  }
}
