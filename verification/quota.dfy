/** The flood-control state both revisions of the bot keep, the texts they report it
    in, and the midnight reset they share. */
module Quota {
  import opened Wrappers
  import opened Chat
  import Text
  import JsNumber

  /** `reelsCount` is the number of reels counted today (or the last override);
      `maxReels` is the daily quota. */
  datatype ReelsStatus = ReelsStatus(reelsCount: int, maxReels: int)

  /** The state at start-up: nothing counted, five reels a day. */
  const Initial: ReelsStatus := ReelsStatus(0, 5)

  /** A handler's effect: the state it leaves and the replies and sends it issues. */
  datatype Step = Step(status: ReelsStatus, out: seq<Outbound>)

  /** The cron job: the count starts again from zero, the quota stays. */
  function MidnightReset(st: ReelsStatus): (r: ReelsStatus)
    ensures r.reelsCount == 0 && r.maxReels == st.maxReels
  {
    st.(reelsCount := 0)
  }

  /** The text of a notice, each integer written as `${n}` writes it. */
  function Render(notice: Notice): (text: string)
    ensures Text.StartsWith(text, "Reels: ") <==> notice.Tally?
    ensures |text| >= 3 && '/' in text
    ensures notice.Fraction? ==> (text[0] == '-' <==> notice.count < 0)
  {
    match notice
    case Fraction(a, b) =>
      var text := FractionText(a, b);
      assert text[0] == JsNumber.DecimalString(a)[0];
      assert |text| >= 7 ==> text[0] != "Reels: "[0];
      text
    case Tally(a, b) => "Reels: " + FractionText(a, b)
  }

  function FractionText(a: int, b: int): string {
    JsNumber.DecimalString(a) + "/" + JsNumber.DecimalString(b)
  }

  /** How a reader recovers two integers from a text of the form `a/b`. */
  function ReadFraction(text: string): Option<(int, int)> {
    var parts := Text.Split(text, '/');
    if |parts| != 2 then None
    else match (JsNumber.ToNumber(parts[0]), JsNumber.ToNumber(parts[1]))
      case (Int(a), Int(b)) => Some((a, b))
      case _ => None
  }

  /** How a reader recovers the two integers of a `Reels: a/b` text. */
  function ReadTally(text: string): Option<(int, int)> {
    if Text.StartsWith(text, "Reels: ") then ReadFraction(text[7..]) else None
  }

  lemma FractionRoundTrip(a: int, b: int)
    ensures Text.Split(Render(Fraction(a, b)), '/') == [JsNumber.DecimalString(a), JsNumber.DecimalString(b)]
    ensures ReadFraction(Render(Fraction(a, b))) == Some((a, b))
  {
    Text.SplitPair(JsNumber.DecimalString(a), JsNumber.DecimalString(b), '/');
    JsNumber.ToNumberDecimalString(a);
    JsNumber.ToNumberDecimalString(b);
  }

  lemma TallyRoundTrip(a: int, b: int)
    ensures Text.StartsWith(Render(Tally(a, b)), "Reels: ")
    ensures Text.Split(Render(Tally(a, b))[7..], '/') == [JsNumber.DecimalString(a), JsNumber.DecimalString(b)]
    ensures ReadTally(Render(Tally(a, b))) == Some((a, b))
  {
    assert Render(Tally(a, b))[7..] == FractionText(a, b);
    FractionRoundTrip(a, b);
  }

  /** An acknowledgement never reads as a tally: it starts with a sign or a digit. */
  lemma FractionIsNotATally(a: int, b: int)
    ensures ReadTally(Render(Fraction(a, b))).None?
  {
    var t := Render(Fraction(a, b));
    assert t[0] == JsNumber.DecimalString(a)[0];
    assert !Text.StartsWith(t, "Reels: ") by {
      if |t| >= 7 {
        assert t[0] != "Reels: "[0];
      }
    }
  }

  /** Distinct notices have distinct texts. */
  lemma RenderInjective(n1: Notice, n2: Notice)
    ensures Render(n1) == Render(n2) ==> n1 == n2
  {
    if Render(n1) == Render(n2) {
      match n1
      case Tally(a, b) =>
        TallyRoundTrip(a, b);
        if n2.Fraction? { FractionIsNotATally(n2.count, n2.of); } else { TallyRoundTrip(n2.count, n2.of); }
      case Fraction(a, b) =>
        FractionIsNotATally(a, b);
        FractionRoundTrip(a, b);
        if n2.Fraction? { FractionRoundTrip(n2.count, n2.of); } else { TallyRoundTrip(n2.count, n2.of); }
    }
  }
}
