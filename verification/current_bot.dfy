/** The current revision of the bot: reels from the monitored number are counted
    against a daily quota, with Instagram and Facebook reel and share links both
    recognised; past the quota, each further reel is answered from a list of
    escalating warnings instead of being counted. */
module CurrentBot {
  import opened Wrappers
  import opened Chat
  import opened Quota
  import Text
  import JsNumber
  import Calendar
  import ReelLinks
  import Sticker

  const Warnings: seq<string> := [
    "Ya te he dicho mil veces que no se pueden enviar más de 5 reels. ¿Es que no entiendes?",
    "Esto ya está fuera de control. ¡Basta de enviar esos malditos reels!",
    "¿Acaso soy tu cartero? Deja de enviar reels, ya es demasiado.",
    "¡Cálmate y entiende de una vez por todas! Si sigues enviando reels, te vas a arrepentir.",
    "Te lo estoy advirtiendo por última vez: Si sigues con esos malditos reels, no tendré otro remedio que bloquearte de una vez."
  ]

  /** `messages[index]`: undefined (None) for any index outside the list. */
  function Warning(index: int): (w: Option<string>)
    ensures w.Some? <==> 0 <= index < |Warnings|
    ensures w.Some? ==> w.value == Warnings[index]
  {
    if 0 <= index < |Warnings| then Some(Warnings[index]) else None
  }

  /** The reply to a reel over the quota: `msg.reply(messages[index])`. */
  function WarningReply(index: int): (reply: Outbound)
    ensures reply.Reply? <==> 0 <= index < |Warnings|
    ensures reply.Reply? ==> reply.text == Warnings[index]
    ensures !reply.Reply? ==> reply == ReplyUndefined
  {
    match Warning(index)
    case Some(text) => Reply(text)
    case None => ReplyUndefined
  }

  /** `getIsReel` of the current revision. */
  function IsReel(msg: Message, now: int, env: Env): (r: bool)
    ensures msg.quoted.Some? && !Calendar.IsMessageToday(msg.quoted.value.timestamp, now, env.utcOffset)
      ==> (r <==> ReelLinks.IsCurrentReelLink(msg.quoted.value.body))
    ensures msg.quoted.None? || Calendar.IsMessageToday(msg.quoted.value.timestamp, now, env.utcOffset)
      ==> (r <==> ReelLinks.IsCurrentReelLink(msg.body))
  {
    ReelLinks.IsCurrentReelLink(ReelCandidateBody(msg, now, env.utcOffset))
  }

  /** The three gates a message passes before it reaches the quota: it comes from the
      monitored number, it is (or quotes an old) reel link, and it is dated today. */
  function Counts(msg: Message, now: int, env: Env): (r: bool)
    ensures r ==> Calendar.LocalDayNumber(msg.timestamp, env.utcOffset) == Calendar.LocalDayNumber(now, env.utcOffset)
    ensures r ==> ReelLinks.IsCurrentReelLink(msg.body)
                  || (msg.quoted.Some? && ReelLinks.IsCurrentReelLink(msg.quoted.value.body))
    ensures r ==> msg.from == MonitoredSender(env)
    ensures msg.quoted.None? ==>
      (r <==> msg.from == MonitoredSender(env) && ReelLinks.IsCurrentReelLink(msg.body)
              && Calendar.IsMessageToday(msg.timestamp, now, env.utcOffset))
    ensures msg.quoted.Some? && Calendar.IsMessageToday(msg.quoted.value.timestamp, now, env.utcOffset) ==>
      (r <==> msg.from == MonitoredSender(env) && ReelLinks.IsCurrentReelLink(msg.body)
              && Calendar.IsMessageToday(msg.timestamp, now, env.utcOffset))
    ensures msg.quoted.Some? && !Calendar.IsMessageToday(msg.quoted.value.timestamp, now, env.utcOffset) ==>
      (r <==> msg.from == MonitoredSender(env) && ReelLinks.IsCurrentReelLink(msg.quoted.value.body)
              && Calendar.IsMessageToday(msg.timestamp, now, env.utcOffset))
  {
    msg.from == MonitoredSender(env)
    && IsReel(msg, now, env)
    && Calendar.IsMessageToday(msg.timestamp, now, env.utcOffset)
  }

  /** The `message` handler. */
  function OnMessage(st: ReelsStatus, msg: Message, now: int, env: Env): (r: Step)
    ensures r.status.maxReels == st.maxReels
    ensures r.out == [] <==> !Counts(msg, now, env)
    ensures !Counts(msg, now, env) ==> r.status == st
    ensures Counts(msg, now, env) && st.reelsCount < st.maxReels ==>
      r.status.reelsCount == st.reelsCount + 1
      && r.out == [Send(Tally(r.status.reelsCount, r.status.maxReels))]
    ensures Counts(msg, now, env) && st.reelsCount >= st.maxReels ==>
      r.status == st && r.out == [WarningReply(st.reelsCount - st.maxReels)]
    ensures forall k | 0 <= k < |r.out| ::
      !r.out[k].ReplySticker? && !(r.out[k].Send? && r.out[k].notice.Fraction?)
  {
    if !Counts(msg, now, env) then Step(st, [])
    else if st.reelsCount >= st.maxReels then
      Step(st, [WarningReply(st.reelsCount - st.maxReels)])
    else
      var next := st.(reelsCount := st.reelsCount + 1);
      Step(next, [Send(Tally(next.reelsCount, next.maxReels))])
  }

  /** The count a `!reels` command sets: its argument, when that is a non-zero number. */
  function Override(msg: Message): (n: Option<int>)
    ensures n.Some? ==> n.value != 0
    ensures n.Some? <==> ReelsArgument(msg).Some? && JsNumber.Truthy(ReelsArgument(msg).value)
    ensures n.Some? ==> ReelsArgument(msg).value == JsNumber.Int(n.value)
  {
    var arg := ReelsArgument(msg);
    if arg.Some? && JsNumber.Truthy(arg.value) then Some(arg.value.value) else None
  }

  /** The `!reels` handler: it sets the count, unclamped, and acknowledges with
      `count/max`. */
  function OnReelsCommand(st: ReelsStatus, msg: Message): (r: Step)
    ensures r.status.maxReels == st.maxReels
    ensures Override(msg).None? ==> r == Step(st, [])
    ensures Override(msg).Some? ==>
      r.status.reelsCount == Override(msg).value
      && r.out == [Send(Fraction(r.status.reelsCount, r.status.maxReels))]
  {
    match Override(msg)
    case None => Step(st, [])
    case Some(n) => Step(st.(reelsCount := n), [Send(Fraction(n, st.maxReels))])
  }

  /** The two `message_create` listeners on one created message: the sticker
      handler's replies come first, then the `!reels` handler's. */
  function OnCreated(st: ReelsStatus, msg: Message, download: Option<Media>, delivered: bool): (r: Step)
    ensures r.status.maxReels == st.maxReels
    ensures forall k | 0 <= k < |r.out| ::
      !r.out[k].ReplyUndefined? && !(r.out[k].Send? && r.out[k].notice.Tally?)
    ensures Sticker.OnStickerCommand(msg, download, delivered) <= r.out
    ensures Text.StartsWith(msg.body, "!reels") ==> r == OnReelsCommand(st, msg)
    ensures !Text.StartsWith(msg.body, "!reels") ==> r == Step(st, Sticker.OnStickerCommand(msg, download, delivered))
  {
    var sticker := Sticker.OnStickerCommand(msg, download, delivered);
    var command := OnReelsCommand(st, msg);
    if Text.StartsWith(msg.body, "!reels") then
      Sticker.StickerIgnoresReelsCommands(msg, download, delivered);
      assert sticker + command.out == command.out;
      Step(command.status, sticker + command.out)
    else
      assert ReelsArgument(msg).None?;
      assert sticker + command.out == sticker;
      Step(command.status, sticker + command.out)
  }

  /** One event: a `message`, a `message_create` or the midnight reset. */
  function Handle(st: ReelsStatus, ev: Event, env: Env): (r: Step)
    ensures r.status.maxReels == st.maxReels
    ensures ev.Midnight? ==> r.status.reelsCount == 0 && r.out == []
    ensures ev.Received? ==> r == OnMessage(st, ev.msg, ev.now, env)
    ensures ev.Received? ==> forall k | 0 <= k < |r.out| ::
      !r.out[k].ReplySticker? && !(r.out[k].Send? && r.out[k].notice.Fraction?)
    ensures ev.Created? ==> forall k | 0 <= k < |r.out| ::
      !r.out[k].ReplyUndefined? && !(r.out[k].Send? && r.out[k].notice.Tally?)
    ensures ev.Created? ==> Sticker.OnStickerCommand(ev.msg, ev.download, ev.delivered) <= r.out
    ensures ev.Created? && Text.StartsWith(ev.msg.body, "!reels") ==> r == OnReelsCommand(st, ev.msg)
    ensures ev.Created? && !Text.StartsWith(ev.msg.body, "!reels") ==> r.status == st
  {
    match ev
    case Received(msg, now) => OnMessage(st, msg, now, env)
    case Created(msg, download, delivered) => OnCreated(st, msg, download, delivered)
    case Midnight => Step(MidnightReset(st), [])
  }

  /** A created message is handled exactly by the two `message_create` listeners. */
  lemma HandleCreated(st: ReelsStatus, msg: Message, download: Option<Media>, delivered: bool, env: Env)
    ensures Handle(st, Created(msg, download, delivered), env) == OnCreated(st, msg, download, delivered)
  {
  }

  /** A sequence of events handled one after another from `st`, with all output in order. */
  function Run(st: ReelsStatus, evs: seq<Event>, env: Env): (r: Step)
    ensures r.status.maxReels == st.maxReels
    decreases |evs|
  {
    if |evs| == 0 then Step(st, [])
    else
      var first := Handle(st, evs[0], env);
      var rest := Run(first.status, evs[1..], env);
      Step(rest.status, first.out + rest.out)
  }

  /** No event other than an accepted `!reels` command raises the count above the quota. */
  predicate OverrideWithin(ev: Event, maxReels: int) {
    ev.Created? && Override(ev.msg).Some? ==> Override(ev.msg).value <= maxReels
  }

  /** The replies and sends that keep the first-warning-only property. */
  predicate OnlyFirstWarning(out: seq<Outbound>) {
    ReplyUndefined !in out
    && forall k | 0 <= k < |out| :: out[k].Reply? && out[k].text in Warnings ==> out[k].text == Warnings[0]
  }

  lemma OnlyFirstWarningConcat(a: seq<Outbound>, b: seq<Outbound>)
    requires OnlyFirstWarning(a) && OnlyFirstWarning(b)
    ensures OnlyFirstWarning(a + b)
  {
    forall k | 0 <= k < |a + b| && (a + b)[k].Reply? && (a + b)[k].text in Warnings
      ensures (a + b)[k].text == Warnings[0]
    {
      if k >= |a| {
        assert (a + b)[k] == b[k - |a|];
      }
    }
  }

  lemma StickerTextsAreNotWarnings()
    ensures Sticker.NoMediaReply !in Warnings
    ensures Sticker.VideoDisabledReply !in Warnings
    ensures Sticker.ConversionFailedReply !in Warnings
  {
  }

  /** The sticker handler never sends a flood warning. */
  lemma StickerSendsNoWarning(msg: Message, download: Option<Media>, delivered: bool)
    ensures OnlyFirstWarning(Sticker.OnStickerCommand(msg, download, delivered))
  {
    var out := Sticker.OnStickerCommand(msg, download, delivered);
    forall k | 0 <= k < |out| && out[k].Reply?
      ensures out[k].text in [Sticker.NoMediaReply, Sticker.VideoDisabledReply, Sticker.ConversionFailedReply]
    {
    }
    StickerTextsAreNotWarnings();
  }

  lemma ReceivedKeepsQuota(st: ReelsStatus, msg: Message, now: int, env: Env)
    requires st.reelsCount <= st.maxReels
    ensures OnMessage(st, msg, now, env).status.reelsCount <= st.maxReels
    ensures OnlyFirstWarning(OnMessage(st, msg, now, env).out)
  {
  }

  lemma CreatedKeepsQuota(st: ReelsStatus, msg: Message, download: Option<Media>, delivered: bool)
    requires st.reelsCount <= st.maxReels
    requires Override(msg).Some? ==> Override(msg).value <= st.maxReels
    ensures OnReelsCommand(st, msg).status.reelsCount <= st.maxReels
    ensures OnlyFirstWarning(Sticker.OnStickerCommand(msg, download, delivered) + OnReelsCommand(st, msg).out)
  {
    var reels := OnReelsCommand(st, msg);
    StickerSendsNoWarning(msg, download, delivered);
    assert OnlyFirstWarning(reels.out);
    OnlyFirstWarningConcat(Sticker.OnStickerCommand(msg, download, delivered), reels.out);
  }

  /** One event keeps the count within the quota, never answers `undefined`, and
      warns only with the first warning. */
  lemma StepKeepsQuota(st: ReelsStatus, ev: Event, env: Env)
    requires 0 <= st.maxReels && st.reelsCount <= st.maxReels && OverrideWithin(ev, st.maxReels)
    ensures Handle(st, ev, env).status.reelsCount <= st.maxReels
    ensures OnlyFirstWarning(Handle(st, ev, env).out)
  {
    match ev
    case Received(msg, now) => ReceivedKeepsQuota(st, msg, now, env);
    case Created(msg, download, delivered) => CreatedKeepsQuota(st, msg, download, delivered);
    case Midnight =>
  }

  /** Without an override above the quota the count never passes the quota, so the
      only warning ever sent is the first one and no reply is ever undefined. */
  lemma {:induction false} QuotaNeverExceeded(st: ReelsStatus, evs: seq<Event>, env: Env)
    requires 0 <= st.maxReels && st.reelsCount <= st.maxReels
    requires forall k :: 0 <= k < |evs| ==> OverrideWithin(evs[k], st.maxReels)
    ensures Run(st, evs, env).status.reelsCount <= st.maxReels
    ensures OnlyFirstWarning(Run(st, evs, env).out)
    decreases |evs|
  {
    if |evs| > 0 {
      var first := Handle(st, evs[0], env);
      StepKeepsQuota(st, evs[0], env);
      assert forall k :: 0 <= k < |evs[1..]| ==> OverrideWithin(evs[1..][k], first.status.maxReels) by {
        forall k | 0 <= k < |evs[1..]| ensures evs[1..][k] == evs[k + 1] { }
      }
      QuotaNeverExceeded(first.status, evs[1..], env);
      OnlyFirstWarningConcat(first.out, Run(first.status, evs[1..], env).out);
    }
  }

  /** Every event is a reel that passes the gates. */
  predicate AllReels(evs: seq<Event>, env: Env) {
    forall k :: 0 <= k < |evs| ==> evs[k].Received? && Counts(evs[k].msg, evs[k].now, env)
  }

  /** What a reel gets when `seen` reels have already been counted or refused today,
      with at most `maxReels` of them counted. */
  function FillReply(seen: int, maxReels: int): Outbound {
    if seen < maxReels then Send(Tally(seen + 1, maxReels)) else Reply(Warnings[0])
  }

  lemma ReelStep(st: ReelsStatus, msg: Message, now: int, env: Env)
    requires st.reelsCount <= st.maxReels && Counts(msg, now, env)
    ensures OnMessage(st, msg, now, env)
         == Step(st.(reelsCount := if st.reelsCount < st.maxReels then st.reelsCount + 1 else st.reelsCount),
                 [FillReply(st.reelsCount, st.maxReels)])
  {
  }

  /** The flood control seen only through reels: `n` reels in a row from `st`. */
  function ReelRun(st: ReelsStatus, n: nat): Step
    decreases n
  {
    if n == 0 then Step(st, [])
    else
      var next := if st.reelsCount < st.maxReels then st.reelsCount + 1 else st.reelsCount;
      var rest := ReelRun(st.(reelsCount := next), n - 1);
      Step(rest.status, [FillReply(st.reelsCount, st.maxReels)] + rest.out)
  }

  /** A run of events that are all gated-in reels is a `ReelRun`. */
  lemma {:induction false} RunOfReels(st: ReelsStatus, evs: seq<Event>, env: Env)
    requires st.reelsCount <= st.maxReels && AllReels(evs, env)
    ensures Run(st, evs, env) == ReelRun(st, |evs|)
    decreases |evs|
  {
    if |evs| > 0 {
      ReelStep(st, evs[0].msg, evs[0].now, env);
      var first := Handle(st, evs[0], env);
      assert first == OnMessage(st, evs[0].msg, evs[0].now, env);
      assert AllReels(evs[1..], env) by {
        forall k | 0 <= k < |evs[1..]| ensures evs[1..][k] == evs[k + 1] { }
      }
      RunOfReels(first.status, evs[1..], env);
      var rest := Run(first.status, evs[1..], env);
      assert Run(st, evs, env) == Step(rest.status, first.out + rest.out);
      assert first.out == [FillReply(st.reelsCount, st.maxReels)];
    }
  }

  /** `n` reels from a count within the quota: the first ones are counted and tallied
      until the quota is reached, and each one after that gets the first warning. */
  lemma {:induction false} ReelRunFillsTheQuota(st: ReelsStatus, n: nat)
    requires st.reelsCount <= st.maxReels
    ensures ReelRun(st, n).status.reelsCount
         == (if st.reelsCount + n < st.maxReels then st.reelsCount + n else st.maxReels)
    ensures ReelRun(st, n).status.maxReels == st.maxReels
    ensures |ReelRun(st, n).out| == n
    ensures forall k | 0 <= k < n :: ReelRun(st, n).out[k] == FillReply(st.reelsCount + k, st.maxReels)
    decreases n
  {
    if n > 0 {
      var next := if st.reelsCount < st.maxReels then st.reelsCount + 1 else st.reelsCount;
      var restState := st.(reelsCount := next);
      ReelRunFillsTheQuota(restState, n - 1);
      var rest := ReelRun(restState, n - 1);
      var out := ReelRun(st, n).out;
      assert out == [FillReply(st.reelsCount, st.maxReels)] + rest.out;
      forall k | 0 < k < n
        ensures out[k] == FillReply(st.reelsCount + k, st.maxReels)
      {
        assert out[k] == rest.out[k - 1] == FillReply(next + (k - 1), st.maxReels);
        if st.reelsCount < st.maxReels {
          assert next + (k - 1) == st.reelsCount + k;
        }
      }
    }
  }

  /** Reels arriving below the quota are counted and tallied one by one; once the
      quota is reached, each further reel gets the first warning and is not counted. */
  lemma ReelsFillTheQuota(st: ReelsStatus, evs: seq<Event>, env: Env)
    requires st.reelsCount <= st.maxReels && AllReels(evs, env)
    ensures Run(st, evs, env).status.reelsCount
         == (if st.reelsCount + |evs| < st.maxReels then st.reelsCount + |evs| else st.maxReels)
    ensures |Run(st, evs, env).out| == |evs|
    ensures forall k | 0 <= k < |evs| :: Run(st, evs, env).out[k] == FillReply(st.reelsCount + k, st.maxReels)
  {
    RunOfReels(st, evs, env);
    ReelRunFillsTheQuota(st, |evs|);
  }

  lemma RunOfTwo(st: ReelsStatus, e1: Event, e2: Event, env: Env)
    ensures Run(st, [e1, e2], env)
         == Step(Handle(Handle(st, e1, env).status, e2, env).status,
                 Handle(st, e1, env).out + Handle(Handle(st, e1, env).status, e2, env).out)
  {
    var evs := [e1, e2];
    var s1 := Handle(st, e1, env);
    var s2 := Handle(s1.status, e2, env);
    assert evs[1..] == [e2] && evs[1..][1..] == [];
    assert Run(s2.status, [], env) == Step(s2.status, []);
    assert Run(s1.status, [e2], env) == Step(s2.status, s2.out + []);
    assert s2.out + [] == s2.out;
  }

  /** After the midnight reset the next reel is tallied as the first of the day. */
  lemma MidnightThenReel(st: ReelsStatus, msg: Message, now: int, env: Env)
    requires Counts(msg, now, env) && st.maxReels > 0
    ensures Run(st, [Midnight, Received(msg, now)], env).out == [Send(Tally(1, st.maxReels))]
    ensures Run(st, [Midnight, Received(msg, now)], env).status.reelsCount == 1
  {
    RunOfTwo(st, Midnight, Received(msg, now), env);
    assert OnMessage(st.(reelsCount := 0), msg, now, env) == Step(ReelsStatus(1, st.maxReels), [Send(Tally(1, st.maxReels))]);
  }

  /** `!reels n` from the account itself sets the count to `n` for any non-zero
      integer, above the quota included, and acknowledges `n/max`; `!reels 0` is ignored. */
  lemma OverrideSetsCount(st: ReelsStatus, msg: Message, n: int)
    requires msg.fromMe && msg.body == "!reels " + JsNumber.DecimalString(n)
    ensures n != 0 ==> OnReelsCommand(st, msg) == Step(st.(reelsCount := n), [Send(Fraction(n, st.maxReels))])
    ensures n == 0 ==> OnReelsCommand(st, msg) == Step(st, [])
  {
    ReelsArgumentOfCommand(msg, n);
  }

  /** The override is accepted from the account only. */
  lemma OverrideNeedsOwnAccount(st: ReelsStatus, msg: Message)
    requires !msg.fromMe
    ensures OnReelsCommand(st, msg) == Step(st, [])
  {
  }

  /** The `message_create` of `!reels n` from the account, for any non-zero `n`. */
  lemma OverrideStep(st: ReelsStatus, command: Message, env: Env, n: int)
    requires command.fromMe && command.body == "!reels " + JsNumber.DecimalString(n) && n != 0
    ensures Handle(st, Created(command, None, true), env)
         == Step(st.(reelsCount := n), [Send(Fraction(n, st.maxReels))])
  {
    OverrideSetsCount(st, command, n);
    Sticker.StickerIgnoresReelsCommands(command, None, true);
  }

  lemma WarnStep(st: ReelsStatus, msg: Message, now: int, env: Env)
    requires Counts(msg, now, env) && st.reelsCount >= st.maxReels
    ensures OnMessage(st, msg, now, env) == Step(st, [WarningReply(st.reelsCount - st.maxReels)])
  {
  }

  /** How `${n}` spells the two overrides below. */
  lemma CommandSpellings()
    ensures "!reels " + JsNumber.DecimalString(7) == "!reels 7"
    ensures "!reels " + JsNumber.DecimalString(10) == "!reels 10"
  {
  }

  /** `!reels 7` against the quota of 5: the next reel gets the third warning. */
  lemma OverrideSevenEscalates(command: Message, reel: Message, now: int, env: Env)
    requires command.fromMe && command.body == "!reels 7"
    requires Counts(reel, now, env)
    ensures Run(Initial, [Created(command, None, true), Received(reel, now)], env)
         == Step(ReelsStatus(7, 5), [Send(Fraction(7, 5)), Reply(Warnings[2])])
  {
    CommandSpellings();
    OverrideStep(Initial, command, env, 7);
    WarnStep(ReelsStatus(7, 5), reel, now, env);
    RunOfTwo(Initial, Created(command, None, true), Received(reel, now), env);
  }

  /** `!reels 10` against the quota of 5: the warning index is 5, past the end of the
      list, and the reel is answered with `undefined`. */
  lemma OverrideTenRepliesUndefined(command: Message, reel: Message, now: int, env: Env)
    requires command.fromMe && command.body == "!reels 10"
    requires Counts(reel, now, env)
    ensures Run(Initial, [Created(command, None, true), Received(reel, now)], env)
         == Step(ReelsStatus(10, 5), [Send(Fraction(10, 5)), ReplyUndefined])
  {
    CommandSpellings();
    OverrideStep(Initial, command, env, 10);
    WarnStep(ReelsStatus(10, 5), reel, now, env);
    RunOfTwo(Initial, Created(command, None, true), Received(reel, now), env);
  }

  /** A message quoting an older reel link counts even when its own body is not a link. */
  lemma QuotedOldReelCounts(msg: Message, q: Quoted, now: int, env: Env)
    requires msg.from == MonitoredSender(env) && msg.quoted == Some(q)
    requires Calendar.IsMessageToday(msg.timestamp, now, env.utcOffset)
    requires !Calendar.IsMessageToday(q.timestamp, now, env.utcOffset)
    requires ReelLinks.IsCurrentReelLink(q.body)
    ensures Counts(msg, now, env)
  {
  }
}
