/**
 * The weather.gov generator: the icon-code extraction and emoji lookup of
 * the `App` settings class, and the steps of `cli_cmd` that turn a forecast
 * and the day's strings into the card's text.
 */
module App {
  import opened Text
  import opened Results
  import Card
  import Decimal
  import Temperature

  /** Emoji for each weather.gov condition code. */
  const WeatherEmojis: map<string, string> :=
    map[
      "skc" := "☀️",
      "few" := "🌤",
      "sct" := "⛅",
      "bkn" := "🌥",
      "ovc" := "☁️",
      "wind_skc" := "💨",
      "wind_few" := "💨",
      "wind_sct" := "💨",
      "wind_bkn" := "💨",
      "wind_ovc" := "💨",
      "snow" := "❄️",
      "rain_snow" := "🌨",
      "rain_sleet" := "🌨",
      "snow_sleet" := "🌨",
      "fzra" := "🌧",
      "rain_fzra" := "🌧",
      "snow_fzra" := "🌨",
      "sleet" := "🌨",
      "rain" := "🌧",
      "rain_showers" := "🌦",
      "rain_showers_hi" := "🌦",
      "tsra" := "⛈",
      "tsra_sct" := "⛈",
      "tsra_hi" := "⛈",
      "tornado" := "🌪",
      "hurricane" := "🌀",
      "tropical_storm" := "🌀",
      "dust" := "🌫",
      "smoke" := "🌫",
      "haze" := "🌫",
      "hot" := "🥵",
      "cold" := "🥶",
      "blizzard" := "🌨",
      "fog" := "🌫"
    ]

  /** The emoji for a code missing from the table (clear sky). */
  const DefaultEmoji: string := "☀️"

  /** Width of the day bubble for each weekday name. */
  const DayBubbleWidths: map<string, int> :=
    map[
      "Monday" := 235,
      "Tuesday" := 235,
      "Wednesday" := 260,
      "Thursday" := 245,
      "Friday" := 220,
      "Saturday" := 245,
      "Sunday" := 230
    ]

  // ---------------------------------------------------------------------
  // get_weather_icon_code and get_weather_emoji

  /**
   * The condition code of a weather.gov icon URL: the last `/`-separated
   * part, cut at the first `?` and then at the first `,`; `"skc"` for an
   * empty URL or one without `/`.
   */
  function IconCode(iconUrl: string): (code: string)
    ensures '/' !in code && '?' !in code && ',' !in code
  {
    if iconUrl == "" then "skc"
    else
      var parts := Split(iconUrl, '/');
      if |parts| >= 2 then
        var segment := parts[|parts| - 1];
        var first := Split(segment, '?')[0];
        SplitPiecesFree(iconUrl, '/');
        SplitFirst(segment, '?');
        SplitFirst(first, ',');
        PrefixLacks(segment, first, '/');
        PrefixLacks(first, Split(first, ',')[0], '/');
        PrefixLacks(first, Split(first, ',')[0], '?');
        Split(first, ',')[0]
      else "skc"
  }

  /** A URL without `/`, the empty one included, has the clear-sky code. */
  lemma IconCodeFallback(iconUrl: string)
    requires '/' !in iconUrl
    ensures IconCode(iconUrl) == "skc"
  {
    SplitCount(iconUrl, '/');
  }

  /**
   * A URL with a `/` has as its code the text after the last `/` up to the
   * first `?` or `,`: a prefix of the last segment that holds none of
   * `/`, `?` and `,`.
   */
  lemma IconCodeFromLastSegment(iconUrl: string)
    requires '/' in iconUrl
    ensures IconCode(iconUrl) == BeforeFirst(AfterLast(iconUrl, '/'), {'?', ','})
    ensures var code := IconCode(iconUrl);
      && StartsWith(AfterLast(iconUrl, '/'), code)
      && '/' !in code && '?' !in code && ',' !in code
  {
    var parts := Split(iconUrl, '/');
    SplitCount(iconUrl, '/');
    SplitLast(iconUrl, '/');
    var segment := parts[|parts| - 1];
    var first := Split(segment, '?')[0];
    SplitFirst(segment, '?');
    SplitFirst(first, ',');
    BeforeFirstTwice(segment, {'?'}, {','});
    assert {'?'} + {','} == {'?', ','};
    var code := IconCode(iconUrl);
    assert code == BeforeFirst(segment, {'?', ','});
  }

  /** After the last `/`, the code is the tail up to the first `?` or `,`. */
  lemma IconCodeOfTail(head: string, tail: string)
    requires '/' !in tail
    ensures IconCode(head + ['/'] + tail) == BeforeFirst(tail, {'?', ','})
  {
    var url := head + ['/'] + tail;
    assert '/' in url by {
      assert url[|head|] == '/';
    }
    IconCodeFromLastSegment(url);
    AfterLastTail(head, '/', tail);
  }

  /**
   * A URL whose last segment is a code followed by `?` or `,` and then
   * anything free of `/` has that code.
   */
  lemma IconCodeOfSegment(head: string, code: string, stop: char, rest: string)
    requires stop == '?' || stop == ','
    requires forall i | 0 <= i < |code| :: code[i] !in {'/', '?', ','}
    requires '/' !in rest
    ensures IconCode(head + ['/'] + code + [stop] + rest) == code
  {
    var tail := code + [stop] + rest;
    assert head + ['/'] + code + [stop] + rest == head + ['/'] + tail;
    assert '/' !in tail by {
      forall i | 0 <= i < |tail| ensures tail[i] != '/' {
        if i < |code| {
          assert tail[i] == code[i];
        } else if i > |code| {
          assert tail[i] == rest[i - |code| - 1];
        }
      }
    }
    IconCodeOfTail(head, tail);
    BeforeFirstHead(code, stop, rest, {'?', ','});
  }

  /** The example URL of the source's documentation yields `tsra`. */
  lemma IconCodeExample(iconUrl: string)
    requires iconUrl == "https://api.weather.gov/icons/land/day/tsra,40?size=medium"
    ensures IconCode(iconUrl) == "tsra"
  {
    var head, code, rest := "https://api.weather.gov/icons/land/day", "tsra", "40?size=medium";
    assert iconUrl == head + ['/'] + code + [','] + rest;
    IconCodeOfSegment(head, code, ',', rest);
  }

  /**
   * The emoji shown for an icon URL: the table's emoji for its code, and
   * the clear-sky emoji for a code the table lacks. Never a lookup failure.
   */
  function WeatherEmoji(iconUrl: string): (e: string)
    ensures e in WeatherEmojis.Values
    ensures IconCode(iconUrl) in WeatherEmojis ==> e == WeatherEmojis[IconCode(iconUrl)]
    ensures IconCode(iconUrl) !in WeatherEmojis ==> e == DefaultEmoji
  {
    var code := IconCode(iconUrl);
    assert WeatherEmojis["skc"] == DefaultEmoji;
    if code in WeatherEmojis then WeatherEmojis[code] else DefaultEmoji
  }

  /** A URL whose last segment is a code of the table is drawn with that code's emoji. */
  lemma WeatherEmojiOfCode(head: string, code: string)
    requires code in WeatherEmojis
    ensures WeatherEmoji(head + ['/'] + code) == WeatherEmojis[code]
  {
    TableCodesPlain(code);
    IconCodeOfTail(head, code);
    BeforeFirstFree(code, {'?', ','});
  }

  /** No code of the table holds `/`, `?` or `,`. */
  lemma TableCodesPlain(code: string)
    requires code in WeatherEmojis
    ensures forall i | 0 <= i < |code| :: code[i] !in {'/', '?', ','}
  {
    TableCodeGroups(code);
    SkyCodesPlain(code);
    PrecipitationCodesPlain(code);
    StormCodesPlain(code);
    OtherCodesPlain(code);
  }

  /**
   * The codes of `WeatherEmojis` again, in four groups. This is no second
   * table: the split only keeps each proof about the codes' characters
   * small enough for the solver.
   */
  lemma TableCodeGroups(code: string)
    requires code in WeatherEmojis
    ensures code in {"skc", "few", "sct", "bkn", "ovc", "wind_skc", "wind_few", "wind_sct", "wind_bkn"}
      || code in {"wind_ovc", "snow", "rain_snow", "rain_sleet", "snow_sleet", "fzra", "rain_fzra", "snow_fzra", "sleet"}
      || code in {"rain", "rain_showers", "rain_showers_hi", "tsra", "tsra_sct", "tsra_hi", "tornado", "hurricane"}
      || code in {"tropical_storm", "dust", "smoke", "haze", "hot", "cold", "blizzard", "fog"}
  {
  }

  lemma SkyCodesPlain(code: string)
    ensures code in {"skc", "few", "sct", "bkn", "ovc", "wind_skc", "wind_few", "wind_sct", "wind_bkn"} ==> forall i | 0 <= i < |code| :: code[i] !in {'/', '?', ','}
  {
  }

  lemma PrecipitationCodesPlain(code: string)
    ensures code in {"wind_ovc", "snow", "rain_snow", "rain_sleet", "snow_sleet", "fzra", "rain_fzra", "snow_fzra", "sleet"} ==> forall i | 0 <= i < |code| :: code[i] !in {'/', '?', ','}
  {
  }

  lemma StormCodesPlain(code: string)
    ensures code in {"rain", "rain_showers", "rain_showers_hi", "tsra", "tsra_sct", "tsra_hi", "tornado", "hurricane"} ==> forall i | 0 <= i < |code| :: code[i] !in {'/', '?', ','}
  {
  }

  lemma OtherCodesPlain(code: string)
    ensures code in {"tropical_storm", "dust", "smoke", "haze", "hot", "cold", "blizzard", "fog"} ==> forall i | 0 <= i < |code| :: code[i] !in {'/', '?', ','}
  {
  }

  /** Every emoji the table or the fallback can give is outside ASCII. */
  lemma WeatherEmojiNonAscii(iconUrl: string)
    ensures Card.NonAscii(WeatherEmoji(iconUrl))
  {
    assert forall e | e in WeatherEmojis.Values :: Card.NonAscii(e);
  }

  /** The thunderstorm of the example is drawn as such. */
  lemma WeatherEmojiExample(iconUrl: string)
    requires iconUrl == "https://api.weather.gov/icons/land/day/tsra,40?size=medium"
    ensures WeatherEmoji(iconUrl) == "⛈"
  {
    IconCodeExample(iconUrl);
    ThunderstormEmoji("tsra");
  }

  /**
   * The table's entry for `tsra`; the code is a parameter equal to the
   * literal so that the lookup is shown once, apart from the URL.
   */
  lemma ThunderstormEmoji(code: string)
    requires code == "tsra"
    ensures code in WeatherEmojis && WeatherEmojis[code] == "⛈"
  {
  }

  /** The bubble width is defined exactly for the seven weekday names. */
  lemma DayBubbleWidthsKeys()
    ensures forall day :: day in DayBubbleWidths <==> day in Card.Weekdays
  {
  }

  // ---------------------------------------------------------------------
  // fetch_weather and cli_cmd

  /** The first forecast period: its temperature in whole °F and its icon URL. */
  datatype Forecast = Forecast(temperature: int, icon: string)

  /** The one failure of the card step itself: a day the width table lacks. */
  datatype CliError = UnknownDay(day: string)

  /**
   * The six values the card receives: °F and °C as decimals, the emoji of
   * the icon, the time text, the day name and that day's bubble width.
   */
  function CardFill(forecast: Forecast, psTime: string, todayDay: string): (fill: Card.Fill)
    requires todayDay in DayBubbleWidths
    ensures fill.degC == Decimal.IntToString(Temperature.Celsius(forecast.temperature))
    ensures fill.weatherEmoji in WeatherEmojis.Values
    ensures Card.InertValue(psTime) ==> Card.InertFill(fill)
  {
    var fill := Card.Fill(
      Decimal.IntToString(forecast.temperature),
      Decimal.IntToString(Temperature.Celsius(forecast.temperature)),
      WeatherEmoji(forecast.icon),
      psTime,
      todayDay,
      Decimal.IntToString(DayBubbleWidths[todayDay]));
    Card.DecimalInert(forecast.temperature);
    Card.DecimalInert(Temperature.Celsius(forecast.temperature));
    Card.DecimalInert(DayBubbleWidths[todayDay]);
    WeatherEmojiNonAscii(forecast.icon);
    Card.NonAsciiInert(WeatherEmoji(forecast.icon));
    DayBubbleWidthsKeys();
    Card.WeekdayInert(todayDay);
    assert Card.InertValue(psTime) ==> Card.InertFill(fill) by {
      if Card.InertValue(psTime) {
        Card.InertFillOf(fill);
      }
    }
    fill
  }

  /**
   * Fills the template with today's values, one placeholder after the
   * other in the source's order. A day the width table lacks fails at the
   * last step and yields no card. Otherwise the card is the template
   * rendered with `CardFill`: unchanged when the template has no
   * placeholder, and free of every placeholder when the time text cannot
   * form one.
   */
  method CliCmd(forecast: Forecast, todayDay: string, psTime: string, template: string)
    returns (r: Result<string, CliError>)
    ensures r.Success? <==> todayDay in DayBubbleWidths
    ensures r.Failure? ==> r.error == UnknownDay(todayDay)
    ensures r.Success? ==> r.value == Card.Render(template, CardFill(forecast, psTime, todayDay))
    ensures r.Success? && (forall k | 0 <= k < |Card.Placeholders| :: !Contains(template, Card.Placeholders[k]))
      ==> r.value == template
    ensures r.Success? && Card.InertValue(psTime)
      ==> forall k | 0 <= k < |Card.Placeholders| :: !Contains(r.value, Card.Placeholders[k])
  {
    var degF := forecast.temperature;
    var degC := Temperature.Celsius(degF);
    var weatherEmoji := WeatherEmoji(forecast.icon);
    var output := Replace(template, "{degF}", Decimal.IntToString(degF));
    output := Replace(output, "{degC}", Decimal.IntToString(degC));
    output := Replace(output, "{weatherEmoji}", weatherEmoji);
    output := Replace(output, "{psTime}", psTime);
    output := Replace(output, "{todayDay}", todayDay);
    if todayDay !in DayBubbleWidths {
      return Failure(UnknownDay(todayDay));
    }
    output := Replace(output, "{dayBubbleWidth}", Decimal.IntToString(DayBubbleWidths[todayDay]));
    var fill := CardFill(forecast, psTime, todayDay);
    Card.RenderSteps(template, fill);
    if Card.InertValue(psTime) {
      Card.RenderClears(template, fill);
    }
    r := Success(output);
  }
}
