// The AccuWeather card script of build-svg.py as a straight-line method
// over its two constant tables.

module BuildSvg {
  import opened Text
  import opened Results
  import Card
  import Decimal
  import Temperature
  import App

  /** AccuWeather icon numbers and their emoji; the table has gaps. */
  const Emojis: map<int, string> :=
    map[
      1 := "☀️",
      2 := "☀️",
      3 := "🌤",
      4 := "🌤",
      5 := "🌤",
      6 := "🌥",
      7 := "☁️",
      8 := "☁️",
      11 := "🌫",
      12 := "🌧",
      13 := "🌦",
      14 := "🌦",
      15 := "⛈",
      16 := "⛈",
      17 := "🌦",
      18 := "🌧",
      19 := "🌨",
      20 := "🌨",
      21 := "🌨",
      22 := "❄️",
      23 := "❄️",
      24 := "🌧",
      25 := "🌧",
      26 := "🌧",
      29 := "🌧",
      30 := "🥵",
      31 := "🥶",
      32 := "💨"
    ]

  /** Width of the day bubble for each weekday name. */
  const DayBubbleWidths: map<string, int> :=
    map[
      "Monday" := 235,
      "Tuesday" := 235,
      "Wednesday" := 260,
      "Thursday" := 245,
      "Friday" := 220,
      "Saturday" := 245,
      "Sunday" := 230
    ]

  /** The icons with an emoji: 1 to 8, 11 to 26 and 29 to 32. */
  lemma EmojisDomain(icon: int)
    ensures icon in Emojis <==> (1 <= icon <= 8 || 11 <= icon <= 26 || 29 <= icon <= 32)
  {
  }

  /** Clear sky, hot, cold and windy have their emoji. */
  lemma EmojisFixtures()
    ensures 1 in Emojis && Emojis[1] == "☀️"
    ensures 2 in Emojis && Emojis[2] == "☀️"
    ensures 30 in Emojis && Emojis[30] == "🥵"
    ensures 31 in Emojis && Emojis[31] == "🥶"
    ensures 32 in Emojis && Emojis[32] == "💨"
  {
  }

  /** The icons the table skips: 9, 10, 27, 28 and 33. */
  lemma EmojisGaps()
    ensures 9 !in Emojis && 10 !in Emojis && 27 !in Emojis && 28 !in Emojis && 33 !in Emojis
  {
    EmojisDomain(9);
    EmojisDomain(10);
    EmojisDomain(27);
    EmojisDomain(28);
    EmojisDomain(33);
  }

  /** Every emoji of the table lies outside ASCII. */
  lemma EmojisNonAscii(icon: int)
    requires icon in Emojis
    ensures Card.NonAscii(Emojis[icon])
  {
    assert forall e | e in Emojis.Values :: Card.NonAscii(e);
  }

  /** The width table has the weekdays as keys and agrees with the one of app.py. */
  lemma DayBubbleWidthsAgree()
    ensures DayBubbleWidths == App.DayBubbleWidths
    ensures forall day :: day in DayBubbleWidths <==> day in Card.Weekdays
  {
    App.DayBubbleWidthsKeys();
  }

  /** Why the script stops without writing a card: a missing table entry. */
  datatype ScriptError = UnknownIcon(icon: int) | UnknownDay(day: string)

  /**
   * Fills the template with the day's values, one placeholder after the
   * other. An icon the emoji table lacks fails at the third step, before
   * the day is looked up; a day the width table lacks fails at the last
   * step. Otherwise the card is the template rendered with the six values.
   */
  method RenderChat(degF: int, icon: int, psTime: string, todayDay: string, template: string)
    returns (r: Result<string, ScriptError>)
    ensures r.Success? <==> icon in Emojis && todayDay in DayBubbleWidths
    ensures icon !in Emojis ==> r == Failure(UnknownIcon(icon))
    ensures icon in Emojis && todayDay !in DayBubbleWidths ==> r == Failure(UnknownDay(todayDay))
    ensures r.Success? ==> r.value == Card.Render(template, ChatFill(degF, icon, psTime, todayDay))
    ensures r.Success? && (forall k | 0 <= k < |Card.Placeholders| :: !Contains(template, Card.Placeholders[k]))
      ==> r.value == template
    ensures r.Success? && Card.InertValue(psTime)
      ==> forall k | 0 <= k < |Card.Placeholders| :: !Contains(r.value, Card.Placeholders[k])
  {
    var degC := Temperature.Celsius(degF);
    var data := Replace(template, "{degF}", Decimal.IntToString(degF));
    data := Replace(data, "{degC}", Decimal.IntToString(degC));
    if icon !in Emojis {
      return Failure(UnknownIcon(icon));
    }
    data := Replace(data, "{weatherEmoji}", Emojis[icon]);
    data := Replace(data, "{psTime}", psTime);
    data := Replace(data, "{todayDay}", todayDay);
    if todayDay !in DayBubbleWidths {
      return Failure(UnknownDay(todayDay));
    }
    data := Replace(data, "{dayBubbleWidth}", Decimal.IntToString(DayBubbleWidths[todayDay]));
    var fill := ChatFill(degF, icon, psTime, todayDay);
    Card.RenderSteps(template, fill);
    if Card.InertValue(psTime) {
      Card.RenderClears(template, fill);
    }
    r := Success(data);
  }

  /**
   * The six values of the card: °F and °C as decimals, the icon's emoji,
   * the time text, the day name and that day's bubble width.
   */
  function ChatFill(degF: int, icon: int, psTime: string, todayDay: string): (fill: Card.Fill)
    requires icon in Emojis && todayDay in DayBubbleWidths
    ensures fill.degC == Decimal.IntToString(Temperature.Celsius(degF))
    ensures fill.weatherEmoji in Emojis.Values
    ensures Card.InertValue(psTime) ==> Card.InertFill(fill)
  {
    var fill := Card.Fill(
      Decimal.IntToString(degF),
      Decimal.IntToString(Temperature.Celsius(degF)),
      Emojis[icon],
      psTime,
      todayDay,
      Decimal.IntToString(DayBubbleWidths[todayDay]));
    Card.DecimalInert(degF);
    Card.DecimalInert(Temperature.Celsius(degF));
    Card.DecimalInert(DayBubbleWidths[todayDay]);
    EmojisNonAscii(icon);
    Card.NonAsciiInert(Emojis[icon]);
    DayBubbleWidthsAgree();
    Card.WeekdayInert(todayDay);
    assert Card.InertValue(psTime) ==> Card.InertFill(fill) by {
      if Card.InertValue(psTime) {
        Card.InertFillOf(fill);
      }
    }
    fill
  }
}
