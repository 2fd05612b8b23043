# Reel flood control of a WhatsApp bot, modelled in Dafny

The bot watches one WhatsApp number (`REELS_FROM_NUMBER`) for links to short
videos ("reels"). It counts them against a daily quota of five. It answers with a
running tally, and once the quota is used up it answers with warnings. A cron job
resets the count at local midnight. The bot's own account can set the count with a
`!reels N` command. Separately, anyone can send `!sticker` with an image attached
and get the image back as a sticker.

The repository holds two revisions of the same script:

- `app/index.ts`, the current one: Instagram and Facebook `reel` and `share` links,
  five escalating warnings, and an override taken as given.
- `index.ts`, the older one: Facebook `reel` links only, and every reel is counted,
  even past the quota. Past the quota it also sends one fixed reply. The tally shows
  the reels that were left before the reel arrived, and an override is capped at
  the quota.

The model is a set of pure functions:

- Each event handler takes the quota state and an event. It returns the new state
  and the list of replies and sends the handler issues (`Quota.Step`).
- `Run` folds a handler over a sequence of events.
- The client's answers are parameters of the event: the handling time, what the
  media download yields, and whether the sticker reply goes through.

Modules:

- `Text`: `startsWith` and `split(' ')`. `Join` is the inverse of `Split`, and the
  split of a string is unique.
- `JsNumber`: `Number(value)` on decimal integers, JavaScript's white-space trimming,
  truthiness, and `${n}` for integers. The module proves that reading back a printed
  integer gives the same integer.
- `Calendar`: the proleptic Gregorian date of a timestamp in the host's time zone,
  taken as a fixed offset, and `isMessageToday`.
- `Regex`: the fragment of JavaScript regular expressions the two link patterns use.
  Matching works on UTF-16 code units, as a pattern without the `u` flag does, and
  `.` excludes the four line terminators.
- `ReelLinks`: both patterns, each proved equivalent to a plain description of the
  link shape.
- `Chat`: messages, events, outbound actions, the monitored sender, the body
  `getIsReel` tests, and the `!reels` argument.
- `Sticker`: the `!sticker` handler and `imageToSticker`. They are the same in both
  revisions (`app/index.ts:50-64`, `117-130`; `index.ts:42-56`, `109-122`).
- `Quota`: the state, the midnight reset, and the two notice texts with their
  decoders.
- `CurrentBot` and `LegacyBot`: the `message` and `message_create` handlers of each
  revision, and runs of events.

Behaviour that is easy to get wrong:

- The link patterns are case-sensitive. Nothing in either pattern ignores case.
- In the current revision, the warning index `reelsCount - maxReels` is not
  clamped. After an override above the quota, an index past the fifth warning
  replies with `undefined` (`CurrentBot.OverrideTenRepliesUndefined`). Without such
  an override, only the first warning is ever sent (`CurrentBot.QuotaNeverExceeded`).
- `!sticker` does not check who sent it. Video attachments are refused, and other
  mimetypes get no answer.
- The older revision caps an override only from above. `!reels -3` sets the count
  to -3.

## Model

| member | source | states |
|---|---|---|
| Text.Split | app/index.ts:95 | the pieces are one more than the spaces, contain no space, and joined with spaces give back the body |
| Text.SplitWhole | app/index.ts:95-97 | the split has at most one piece exactly when the body has no space |
| Text.JoinInjective | app/index.ts:95 | two lists of space-free pieces with the same join are equal |
| Text.SplitUnique | app/index.ts:95 | any list of space-free pieces that joins to the body is its split |
| Text.SplitPair | app/index.ts:98 | `a + " " + b`, with no space in `a` or `b`, splits into `[a, b]` |
| JsNumber.TrimStart | app/index.ts:103 | the result is a suffix of the input, only white space is removed, and it does not start with white space |
| JsNumber.TrimEnd | app/index.ts:103 | the result is a prefix of the input, only white space is removed, and it does not end with white space |
| JsNumber.DigitString | app/index.ts:85 | the decimal spelling of a natural is non-empty, all digits, has no leading zero and denotes the number |
| JsNumber.ToNumber | app/index.ts:102-104 | white space alone reads as 0; a trimmed text of digits reads as their decimal value, with a leading `+` as that value and a leading `-` as its negation, leading zeros included; any other non-empty text is NaN |
| JsNumber.DecimalString | app/index.ts:85 | `${n}` contains no space and no slash; it starts with `-` exactly for negative `n`, and the rest is the digits of the magnitude of `n` with no leading zero |
| JsNumber.ToNumberDecimalString | app/index.ts:103 | `Number` of `${n}` is `n` |
| Calendar.YearWalk | app/index.ts:155 | the walk lands on a year and a day within that year with the same day count from the epoch |
| Calendar.MonthWalk | app/index.ts:155 | the walk lands on a month and a day within that month with the same day count in the year |
| Calendar.DateOfDay | app/index.ts:155-161 | the date of a day number is a valid date whose day number is that day |
| Calendar.DayNumberInjective | app/index.ts:158-161 | distinct valid dates have distinct day numbers |
| Calendar.DateOfDayNumber | app/index.ts:158-161 | every valid date is the date of its own day number |
| Calendar.IsMessageToday | app/index.ts:152-164 | equal year, month and day exactly when the local day numbers are equal |
| Calendar.TodayIsWithinADay | app/index.ts:152-164 | a message dated today is less than 86400 seconds from now |
| Calendar.MidnightStartsANewDay | app/index.ts:158-161 | at local midnight, the second before is not today: calendar days, not a 24-hour window |
| Calendar.TodayIsAnEquivalence | app/index.ts:158-161 | being on the same day is reflexive, symmetric and transitive |
| Calendar.EpochDates | app/index.ts:155 | day 0 is 1 January 1970 and day -1 is 31 December 1969, with 0-based months |
| Regex.Utf16 | app/index.ts:149 | a string has between one and two code units per character, and a string inside the Basic Multilingual Plane has exactly its characters' codes |
| Regex.Utf16Concat | app/index.ts:149 | the code units of a concatenation are the concatenated code units |
| Regex.PlusDot | app/index.ts:139 | `.+` matches from a position exactly when a code unit is left there and it is not a line terminator |
| ReelLinks.CurrentCoreSound | app/index.ts:139 | every match of the current pattern's core starts a Facebook or Instagram reel or share link |
| ReelLinks.CurrentShapeComplete | app/index.ts:139 | every such link shape is matched by the core |
| ReelLinks.CurrentPatternMeaning | app/index.ts:139 | `regex.test(body)` holds exactly when the body contains a current-shape link |
| ReelLinks.LegacyCoreSound | index.ts:131 | every match of the older core starts a Facebook reel link |
| ReelLinks.LegacyShapeComplete | index.ts:131 | every Facebook reel link shape is matched by the older core |
| ReelLinks.LegacyPatternMeaning | index.ts:131 | the older `regex.test(body)` holds exactly when the body contains a Facebook reel link |
| ReelLinks.LegacyLinksAreCurrentLinks | index.ts:131 | every body the older pattern accepts the current one accepts |
| ReelLinks.EmbeddedCurrentLink | app/index.ts:139 | `facebook` or `instagram`, any one non-terminator character inside the Basic Multilingual Plane (a single UTF-16 code unit), `com/`, `reel` or `share`, `/` and one more non-terminator character, with any text before and after, is a reel |
| ReelLinks.EmbeddedLegacyLink | index.ts:131 | `facebook`, any one non-terminator character inside the Basic Multilingual Plane (a single UTF-16 code unit), `com/reel/` and one more non-terminator character, with any text before and after, is an older-pattern reel |
| ReelLinks.InstagramReelExample | app/index.ts:139 | `https://www.instagram.com/reel/abc123` is a reel |
| ReelLinks.FacebookShareExample | app/index.ts:139 | `facebook.com/share/xyz` is a reel for the current pattern |
| ReelLinks.FacebookShareIsNotLegacyExample | index.ts:131 | `facebook.com/share/xyz` is not a reel for the older pattern |
| ReelLinks.InstagramPostExample | app/index.ts:139 | `instagram.com/p/abc` is not a reel |
| ReelLinks.ShortInstagramReelExample | app/index.ts:139 | `instagram.com/reel/abc`, without scheme or `www.`, is a reel |
| ReelLinks.InstagramReelIsNotLegacyExample | index.ts:131 | an Instagram reel is not a reel for the older pattern |
| ReelLinks.FacebookReelExample | index.ts:131 | `https://www.facebook.com/reel/123` is a reel for both patterns |
| ReelLinks.EmptyBodyExample | app/index.ts:139 | the empty body is a reel for neither pattern |
| Chat.MonitoredSender | app/index.ts:69 | the monitored id is the number followed by `@c.us`, and `undefined@c.us` when the variable is unset |
| Chat.ReelCandidateBody | app/index.ts:141-147 | the body matched against the pattern is the quoted body exactly when a message is quoted and it is not from today |
| Chat.QuoteFromTodayIsIgnored | app/index.ts:143-146 | quoting a message from today is the same as quoting nothing |
| Chat.OldQuoteHidesOwnBody | app/index.ts:143-146 | with an older quote, the message's own body does not matter |
| Chat.ReelsArgument | app/index.ts:92-103 | an argument is read exactly when the message is the account's own, starts with `!reels` and has a space; it is `Number` of the second piece |
| Chat.ReelsArgumentOfCommand | app/index.ts:93-103 | `!reels ${n}` from the account is read as `n` |
| Sticker.ImageToSticker | app/index.ts:117-130 | the sticker reply carries the downloaded media, and the apology follows it exactly when the reply fails |
| Sticker.ImageAndVideoExclusive | app/index.ts:57-63 | no mimetype starts with both `image` and `video` |
| Sticker.OnStickerCommand | app/index.ts:50-64 | no reply without `!sticker`; the taunt exactly without media; nothing when the download yields nothing; for an image mimetype exactly the output of `imageToSticker`; for a video mimetype exactly the refusal; for any other mimetype nothing; the handler only ever replies |
| Sticker.AnySenderGetsASticker | app/index.ts:50-58 | the sticker is sent whoever wrote the command |
| Sticker.StickerIgnoresReelsCommands | app/index.ts:51 | a `!reels` command gets nothing from the sticker handler |
| Quota.MidnightReset | app/index.ts:22-30 | the reset zeroes the count and keeps the quota |
| Quota.FractionRoundTrip | app/index.ts:109-112 | the acknowledgement `count/max` splits at its slash into the two numbers and reads back as them |
| Quota.TallyRoundTrip | app/index.ts:83-86 | the tally is `Reels: ` followed by exactly `${count}/${max}`, and reads back as its two numbers |
| Quota.FractionIsNotATally | app/index.ts:109-112 | an acknowledgement never reads as a tally |
| Quota.Render | app/index.ts:83-112 | only a tally starts with `Reels: `; both texts hold a slash, and an acknowledgement starts with `-` exactly when its count is negative |
| Quota.RenderInjective | app/index.ts:83-112 | distinct notices have distinct texts |
| CurrentBot.Warning | app/index.ts:75-76 | the lookup yields a warning exactly for indices 0 to 4, and the warning at that index |
| CurrentBot.WarningReply | app/index.ts:75-77 | the reply is warning `index` for indices 0 to 4 and `undefined` otherwise |
| CurrentBot.IsReel | app/index.ts:138-150 | with a quote not from today the quoted body is tested, otherwise the message's own body |
| CurrentBot.Counts | app/index.ts:66-73 | a counted message is from the monitored sender and dated on the local day of `now`; it counts exactly when it is from that sender, dated today, and the tested body is a current reel link: the quoted body for a quote not from today, the own body otherwise |
| CurrentBot.OnMessage | app/index.ts:66-87 | nothing happens exactly when a gate fails; under the quota the count goes up by one and the new tally is sent; at or over it the count stays and warning `count - max` (or `undefined`) is the reply; the quota never changes |
| CurrentBot.Override | app/index.ts:97-106 | an override exists exactly when the argument is read and is a non-zero number, and its value is that number |
| CurrentBot.OnReelsCommand | app/index.ts:89-113 | without an override nothing happens; otherwise the count becomes the value, unclamped, and `count/max` is sent |
| CurrentBot.OnCreated | app/index.ts:50-113 | the sticker handler's replies come first and appear unchanged; the output holds no tally and no `undefined`; a `!reels` command gets exactly the `!reels` handler's result, and any other message gets exactly the sticker handler's replies with the count unchanged |
| CurrentBot.Handle | app/index.ts:22-113 | a message event is handled exactly by the reel counter, which never sends a sticker or an acknowledgement; a created message gets the sticker handler's replies first, never a tally or `undefined`, gets exactly the `!reels` handler's result when it is a `!reels` command, and keeps the count otherwise (its exact output is `CurrentBot.HandleCreated`); midnight zeroes the count in silence; the quota never changes |
| CurrentBot.HandleCreated | app/index.ts:50-113 | a created message is handled exactly by `OnCreated`: the `!reels` handler's result for a `!reels` command and exactly the sticker replies otherwise |
| CurrentBot.Run | app/index.ts:9-12 | no sequence of events changes the quota |
| CurrentBot.StepKeepsQuota | app/index.ts:74-80 | from a count within the quota, an event without an override above it keeps the count within it and sends only the first warning |
| CurrentBot.QuotaNeverExceeded | app/index.ts:74-80 | without overrides above the quota, the count stays within it, no reply is `undefined`, and every warning sent is the first one |
| CurrentBot.RunOfReels | app/index.ts:66-87 | a run of gated-in reels behaves as the counter `ReelRun` |
| CurrentBot.ReelRunFillsTheQuota | app/index.ts:74-86 | the k-th reel is tallied as reel `count + k + 1` while under the quota, then gets the first warning; the count ends at the smaller of `count + n` and the quota |
| CurrentBot.ReelsFillTheQuota | app/index.ts:74-86 | the same for any run of events that are all gated-in reels |
| CurrentBot.MidnightThenReel | app/index.ts:22-30 | after the reset the next reel is tallied `Reels: 1/max` |
| CurrentBot.OverrideSetsCount | app/index.ts:89-113 | `!reels ${n}` from the account sets the count to any non-zero `n`, above the quota included, and acknowledges `n/max`; `!reels 0` changes nothing |
| CurrentBot.OverrideNeedsOwnAccount | app/index.ts:92 | a `!reels` command from anyone else changes nothing |
| CurrentBot.OverrideSevenEscalates | app/index.ts:74-77 | after `!reels 7` with a quota of 5, the next reel gets the third warning and the count stays 7 |
| CurrentBot.OverrideTenRepliesUndefined | app/index.ts:75-77 | after `!reels 10`, the next reel is answered with `undefined` |
| CurrentBot.QuotedOldReelCounts | app/index.ts:138-150 | a message quoting an older reel link passes the reel gate whatever its own body |
| LegacyBot.IsReel | index.ts:130-142 | with a quote not from today the quoted body is tested, otherwise the message's own body |
| LegacyBot.Counts | index.ts:58-65 | a counted message is from the monitored sender and dated on the local day of `now`; it counts exactly when it is from that sender, dated today, and the tested body is a Facebook reel link: the quoted body for a quote not from today, the own body otherwise |
| LegacyBot.OnMessage | index.ts:58-78 | nothing happens exactly when a gate fails; otherwise the count always goes up by one, the fixed reply is sent exactly at or over the quota, and the tally sent last reports the new count and the reels left before the increment |
| LegacyBot.Cap | index.ts:95 | the capped number is never above the quota, NaN stays NaN, and values within the quota are kept |
| LegacyBot.Override | index.ts:93-98 | an override exists exactly when the argument is read and its capped value is a non-zero number, negatives included; it is that capped value, so the argument itself within the quota and the quota above it |
| LegacyBot.OnReelsCommand | index.ts:80-105 | without an override nothing happens; otherwise the count becomes the capped value and `count/max` is sent |
| LegacyBot.OnCreated | index.ts:42-105 | the same for the older `!reels` handler |
| LegacyBot.Handle | index.ts:14-105 | as in the current revision: a message event is handled exactly by the older reel counter; a created message gets the sticker replies first, exactly the `!reels` handler's result as a `!reels` command, and the count kept otherwise (its exact output is `LegacyBot.HandleCreated`); midnight zeroes the count in silence |
| LegacyBot.HandleCreated | index.ts:42-105 | a created message is handled exactly by the older `OnCreated` |
| LegacyBot.Run | index.ts:9-12 | no sequence of events changes the quota |
| LegacyBot.EveryReelCounts | index.ts:66-70 | after n gated-in reels the count has grown by exactly n, so the quota does not bound it |
| LegacyBot.OverQuotaTally | index.ts:67-77 | at or over the quota a reel draws the fixed reply and a tally whose reels left is zero or negative |
| LegacyBot.SixthReelTally | index.ts:73-77 | the sixth reel against a quota of 5 is tallied `Reels: 6/0` |
| LegacyBot.OverrideIsCapped | index.ts:93-100 | `!reels ${n}` sets the count to `n` capped at the quota, unless the capped value is 0 |
| LegacyBot.LegacyGatesImplyCurrentGates | index.ts:58-66 | a reel the older revision counts is counted by the current one too |
| LegacyBot.ShareLinkCountsOnlyInCurrent | index.ts:131 | a Facebook share link passes the current gates and not the older ones |

## Left out

- The WhatsApp client, QR pairing, the `ready` log, `client.initialize()`, and the status page in `app/server.ts`: plumbing outside the core. Events arrive as values, and replies and sends are returned as values.
- `initTempDir` and the commented-out temporary-file handling: file system side effects the handlers never read.
- The cron scheduler: the reset is a `Midnight` event that may arrive at any point of a run. The cron job runs at midnight in `America/Bogota`, but `isMessageToday` reads dates in the host process's own time zone, which neither revision sets. The model takes that host zone as a fixed UTC offset (`Env.utcOffset`) and does not model its daylight-saving changes. The reset and the "today" boundary can therefore fall at different instants, and a `Midnight` event placed anywhere in a run covers that.
- Both revisions read the clock twice per message, once for the message and once for a quoted message. The model uses one `now` per event, so a message handled across local midnight is not modelled.
- Concurrency: each handler runs to completion before the next event. Interleaving at the `await`s (`getIsReel`, `getChat`, `downloadMedia`) is not modelled. Neither is the older revision's snapshot being taken before such an await.
- JsNumber.ToNumber: only optional white space, an optional sign and decimal digits are read. Hexadecimal (`0x`), binary (`0b`) and octal (`0o`) literals, exponents, fractions and `Infinity` are read as NaN rather than as numbers. Integers are unbounded, so precision loss above 2^53 is not modelled.
- JsNumber.DecimalString: integers are printed in plain decimal at every size. JavaScript switches to exponent notation from 10^21.
- Chat.Media: the media payload is opaque bytes. Sticker encoding, the sticker flag and the client's error handling are not modelled. Only whether the reply is delivered is.
- Sticker.OnStickerCommand: when `downloadMedia()` yields nothing, the handler throws when it reads the mimetype. The model returns no actions and does not model the rejected promise.
- CurrentBot.QuotaNeverExceeded: requires a non-negative quota. The quota is 5 and never changes, and with a negative quota the midnight reset would already put the count above it.
- Messages from the account itself arrive only as `message_create` events. The model does not tie the `message` and `message_create` events of one incoming message together. The environment chooses which events arrive.
