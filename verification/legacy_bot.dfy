/** The older revision of the bot: only Facebook reel links are recognised, every
    reel that passes the gates is counted, past the quota each one also draws a
    single fixed reply, and the tally reports the reels left as they stood before the
    reel arrived. An override is capped at the quota. */
module LegacyBot {
  import opened Wrappers
  import opened Chat
  import opened Quota
  import Text
  import JsNumber
  import Calendar
  import ReelLinks
  import Sticker
  import CurrentBot

  const MaxReelsReply: string := "\U{1F642} Maximo de reels \U{1F642}"

  /** `getIsReel` of the older revision. */
  function IsReel(msg: Message, now: int, env: Env): (r: bool)
    ensures msg.quoted.Some? && !Calendar.IsMessageToday(msg.quoted.value.timestamp, now, env.utcOffset)
      ==> (r <==> ReelLinks.IsLegacyReelLink(msg.quoted.value.body))
    ensures msg.quoted.None? || Calendar.IsMessageToday(msg.quoted.value.timestamp, now, env.utcOffset)
      ==> (r <==> ReelLinks.IsLegacyReelLink(msg.body))
  {
    ReelLinks.IsLegacyReelLink(ReelCandidateBody(msg, now, env.utcOffset))
  }

  /** The same three gates as the current revision, with the older link pattern. */
  function Counts(msg: Message, now: int, env: Env): (r: bool)
    ensures r ==> Calendar.LocalDayNumber(msg.timestamp, env.utcOffset) == Calendar.LocalDayNumber(now, env.utcOffset)
    ensures r ==> ReelLinks.IsLegacyReelLink(msg.body)
                  || (msg.quoted.Some? && ReelLinks.IsLegacyReelLink(msg.quoted.value.body))
    ensures r ==> msg.from == MonitoredSender(env)
    ensures msg.quoted.None? ==>
      (r <==> msg.from == MonitoredSender(env) && ReelLinks.IsLegacyReelLink(msg.body)
              && Calendar.IsMessageToday(msg.timestamp, now, env.utcOffset))
    ensures msg.quoted.Some? && Calendar.IsMessageToday(msg.quoted.value.timestamp, now, env.utcOffset) ==>
      (r <==> msg.from == MonitoredSender(env) && ReelLinks.IsLegacyReelLink(msg.body)
              && Calendar.IsMessageToday(msg.timestamp, now, env.utcOffset))
    ensures msg.quoted.Some? && !Calendar.IsMessageToday(msg.quoted.value.timestamp, now, env.utcOffset) ==>
      (r <==> msg.from == MonitoredSender(env) && ReelLinks.IsLegacyReelLink(msg.quoted.value.body)
              && Calendar.IsMessageToday(msg.timestamp, now, env.utcOffset))
  {
    msg.from == MonitoredSender(env)
    && IsReel(msg, now, env)
    && Calendar.IsMessageToday(msg.timestamp, now, env.utcOffset)
  }

  /** The `message` handler. The reels left are computed from the state as it was
      when the message arrived, before the count went up. */
  function OnMessage(st: ReelsStatus, msg: Message, now: int, env: Env): (r: Step)
    ensures r.status.maxReels == st.maxReels
    ensures !Counts(msg, now, env) ==> r == Step(st, [])
    ensures Counts(msg, now, env) ==> r.status.reelsCount == st.reelsCount + 1
    ensures Counts(msg, now, env) ==>
      1 <= |r.out| <= 2 && r.out[|r.out| - 1] == Send(Tally(r.status.reelsCount, st.maxReels - st.reelsCount))
    ensures Reply(MaxReelsReply) in r.out <==> Counts(msg, now, env) && st.reelsCount >= st.maxReels
    ensures |r.out| == 2 ==> r.out[0] == Reply(MaxReelsReply)
    ensures forall k | 0 <= k < |r.out| ::
      !r.out[k].ReplySticker? && !(r.out[k].Send? && r.out[k].notice.Fraction?)
  {
    if !Counts(msg, now, env) then Step(st, [])
    else
      var warning := if st.reelsCount >= st.maxReels then [Reply(MaxReelsReply)] else [];
      var remaining := st.maxReels - st.reelsCount;
      var next := st.(reelsCount := st.reelsCount + 1);
      Step(next, warning + [Send(Tally(next.reelsCount, remaining))])
  }

  /** `number > maxReels ? maxReels : number`; NaN compares false and is kept. */
  function Cap(n: JsNumber.Number, maxReels: int): (c: JsNumber.Number)
    ensures c.Int? <==> n.Int?
    ensures c.Int? ==> c.value <= maxReels && (c.value == n.value || c.value == maxReels)
    ensures c.Int? && n.value <= maxReels ==> c == n
  {
    if n.Int? && n.value > maxReels then JsNumber.Int(maxReels) else n
  }

  /** The count a `!reels` command sets: its argument capped at the quota, when the
      capped value is a non-zero number. */
  function Override(msg: Message, maxReels: int): (n: Option<int>)
    ensures n.Some? ==> n.value != 0 && n.value <= maxReels
    ensures n.Some? ==> ReelsArgument(msg).Some? && ReelsArgument(msg).value.Int?
    ensures n.Some? && ReelsArgument(msg).value.value <= maxReels ==> n.value == ReelsArgument(msg).value.value
    ensures n.Some? && ReelsArgument(msg).value.value > maxReels ==> n.value == maxReels
    ensures n.Some? <==> ReelsArgument(msg).Some? && JsNumber.Truthy(Cap(ReelsArgument(msg).value, maxReels))
    ensures n.Some? ==> JsNumber.Int(n.value) == Cap(ReelsArgument(msg).value, maxReels)
  {
    var arg := ReelsArgument(msg);
    if arg.None? then None
    else
      var capped := Cap(arg.value, maxReels);
      if JsNumber.Truthy(capped) then Some(capped.value) else None
  }

  function OnReelsCommand(st: ReelsStatus, msg: Message): (r: Step)
    ensures r.status.maxReels == st.maxReels
    ensures Override(msg, st.maxReels).None? ==> r == Step(st, [])
    ensures Override(msg, st.maxReels).Some? ==>
      r.status.reelsCount == Override(msg, st.maxReels).value <= st.maxReels
      && r.out == [Send(Fraction(r.status.reelsCount, r.status.maxReels))]
  {
    match Override(msg, st.maxReels)
    case None => Step(st, [])
    case Some(n) => Step(st.(reelsCount := n), [Send(Fraction(n, st.maxReels))])
  }

  /** The two `message_create` listeners on one created message: the sticker
      handler's replies come first, then the `!reels` handler's. */
  function OnCreated(st: ReelsStatus, msg: Message, download: Option<Media>, delivered: bool): (r: Step)
    ensures r.status.maxReels == st.maxReels
    ensures forall k | 0 <= k < |r.out| ::
      !r.out[k].ReplyUndefined? && !(r.out[k].Send? && r.out[k].notice.Tally?)
    ensures Sticker.OnStickerCommand(msg, download, delivered) <= r.out
    ensures Text.StartsWith(msg.body, "!reels") ==> r == OnReelsCommand(st, msg)
    ensures !Text.StartsWith(msg.body, "!reels") ==> r == Step(st, Sticker.OnStickerCommand(msg, download, delivered))
  {
    var sticker := Sticker.OnStickerCommand(msg, download, delivered);
    var command := OnReelsCommand(st, msg);
    if Text.StartsWith(msg.body, "!reels") then
      Sticker.StickerIgnoresReelsCommands(msg, download, delivered);
      assert sticker + command.out == command.out;
      Step(command.status, sticker + command.out)
    else
      assert ReelsArgument(msg).None?;
      assert sticker + command.out == sticker;
      Step(command.status, sticker + command.out)
  }

  function Handle(st: ReelsStatus, ev: Event, env: Env): (r: Step)
    ensures r.status.maxReels == st.maxReels
    ensures ev.Midnight? ==> r.status.reelsCount == 0 && r.out == []
    ensures ev.Received? ==> r == OnMessage(st, ev.msg, ev.now, env)
    ensures ev.Received? ==> forall k | 0 <= k < |r.out| ::
      !r.out[k].ReplySticker? && !(r.out[k].Send? && r.out[k].notice.Fraction?)
    ensures ev.Created? ==> forall k | 0 <= k < |r.out| ::
      !r.out[k].ReplyUndefined? && !(r.out[k].Send? && r.out[k].notice.Tally?)
    ensures ev.Created? ==> Sticker.OnStickerCommand(ev.msg, ev.download, ev.delivered) <= r.out
    ensures ev.Created? && Text.StartsWith(ev.msg.body, "!reels") ==> r == OnReelsCommand(st, ev.msg)
    ensures ev.Created? && !Text.StartsWith(ev.msg.body, "!reels") ==> r.status == st
  {
    match ev
    case Received(msg, now) => OnMessage(st, msg, now, env)
    case Created(msg, download, delivered) => OnCreated(st, msg, download, delivered)
    case Midnight => Step(MidnightReset(st), [])
  }

  /** A created message is handled exactly by the two `message_create` listeners. */
  lemma HandleCreated(st: ReelsStatus, msg: Message, download: Option<Media>, delivered: bool, env: Env)
    ensures Handle(st, Created(msg, download, delivered), env) == OnCreated(st, msg, download, delivered)
  {
  }

  function Run(st: ReelsStatus, evs: seq<Event>, env: Env): (r: Step)
    ensures r.status.maxReels == st.maxReels
    decreases |evs|
  {
    if |evs| == 0 then Step(st, [])
    else
      var first := Handle(st, evs[0], env);
      var rest := Run(first.status, evs[1..], env);
      Step(rest.status, first.out + rest.out)
  }

  predicate AllReels(evs: seq<Event>, env: Env) {
    forall k :: 0 <= k < |evs| ==> evs[k].Received? && Counts(evs[k].msg, evs[k].now, env)
  }

  /** Every reel is counted, over the quota or not: the count is not bounded by it. */
  lemma {:induction false} EveryReelCounts(st: ReelsStatus, evs: seq<Event>, env: Env)
    requires AllReels(evs, env)
    ensures Run(st, evs, env).status.reelsCount == st.reelsCount + |evs|
    ensures |evs| <= |Run(st, evs, env).out| <= 2 * |evs|
    decreases |evs|
  {
    if |evs| > 0 {
      var first := Handle(st, evs[0], env);
      assert first == OnMessage(st, evs[0].msg, evs[0].now, env);
      assert AllReels(evs[1..], env) by {
        forall k | 0 <= k < |evs[1..]| ensures evs[1..][k] == evs[k + 1] { }
      }
      EveryReelCounts(first.status, evs[1..], env);
    }
  }

  /** At and past the quota a reel draws the fixed reply and a tally whose reels left
      is zero or negative. */
  lemma OverQuotaTally(st: ReelsStatus, msg: Message, now: int, env: Env)
    requires Counts(msg, now, env) && st.reelsCount >= st.maxReels
    ensures OnMessage(st, msg, now, env).out
         == [Reply(MaxReelsReply), Send(Tally(st.reelsCount + 1, st.maxReels - st.reelsCount))]
    ensures st.maxReels - st.reelsCount <= 0
  {
  }

  /** The sixth reel of the day against the quota of 5 is tallied `Reels: 6/0`. */
  lemma SixthReelTally(msg: Message, now: int, env: Env)
    requires Counts(msg, now, env)
    ensures OnMessage(ReelsStatus(5, 5), msg, now, env).out == [Reply(MaxReelsReply), Send(Tally(6, 0))]
  {
    OverQuotaTally(ReelsStatus(5, 5), msg, now, env);
  }

  /** `!reels n` from the account sets the count to `n` capped at the quota, unless the
      capped value is 0. */
  lemma OverrideIsCapped(st: ReelsStatus, msg: Message, n: int)
    requires msg.fromMe && msg.body == "!reels " + JsNumber.DecimalString(n)
    ensures var c := if n > st.maxReels then st.maxReels else n;
      OnReelsCommand(st, msg)
      == if c != 0 then Step(st.(reelsCount := c), [Send(Fraction(c, st.maxReels))]) else Step(st, [])
  {
    ReelsArgumentOfCommand(msg, n);
  }

  /** A reel the older revision counts, the current one counts too. */
  lemma LegacyGatesImplyCurrentGates(msg: Message, now: int, env: Env)
    ensures Counts(msg, now, env) ==> CurrentBot.Counts(msg, now, env)
  {
    ReelLinks.LegacyLinksAreCurrentLinks(ReelCandidateBody(msg, now, env.utcOffset));
  }

  /** A Facebook share link counts in the current revision only. */
  lemma ShareLinkCountsOnlyInCurrent(msg: Message, now: int, env: Env)
    requires msg.from == MonitoredSender(env) && msg.quoted.None?
    requires Calendar.IsMessageToday(msg.timestamp, now, env.utcOffset)
    requires msg.body == "facebook.com/share/xyz"
    ensures CurrentBot.Counts(msg, now, env) && !Counts(msg, now, env)
  {
    ReelLinks.FacebookShareExample(msg.body);
    ReelLinks.FacebookShareIsNotLegacyExample(msg.body);
  }
}
