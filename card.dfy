/**
 * What both card generators share: the six `{name}` placeholders of the
 * SVG template, the chain of `str.replace` calls that fills them, and the
 * seven weekday names the day-bubble width tables are keyed by.
 */
module Card {
  import opened Text
  import Decimal

  /** The placeholders, in the order the source substitutes them. */
  const Placeholders: seq<string> :=
    ["{degF}", "{degC}", "{weatherEmoji}", "{psTime}", "{todayDay}", "{dayBubbleWidth}"]

  /** The full English weekday names, as `format("dddd")` prints them. */
  const Weekdays: seq<string> :=
    ["Monday", "Tuesday", "Wednesday", "Thursday", "Friday", "Saturday", "Sunday"]

  /** The text put in place of each placeholder, already in string form. */
  datatype Fill = Fill(
    degF: string,
    degC: string,
    weatherEmoji: string,
    psTime: string,
    todayDay: string,
    dayBubbleWidth: string)

  /** The value the chain puts in for placeholder `k`. */
  function Value(fill: Fill, k: nat): string
    requires k < |Placeholders|
  {
    if k == 0 then fill.degF
    else if k == 1 then fill.degC
    else if k == 2 then fill.weatherEmoji
    else if k == 3 then fill.psTime
    else if k == 4 then fill.todayDay
    else fill.dayBubbleWidth
  }

  /**
   * Each placeholder paired with its text, in substitution order. Every
   * pattern of the chain is a placeholder proper, so none is empty, and no
   * two steps replace the same placeholder.
   */
  function Substitutions(fill: Fill): (subs: seq<(string, string)>)
    ensures |subs| == |Placeholders|
    ensures forall k | 0 <= k < |subs| :: subs[k] == (Placeholders[k], Value(fill, k))
    ensures Patterns(subs)
    ensures forall k | 0 <= k < |subs| :: Braced(subs[k].0)
    ensures forall j, k | 0 <= j < k < |subs| :: subs[j].0 != subs[k].0
  {
    assert forall k | 0 <= k < |Placeholders| :: Braced(Placeholders[k]) by {
      forall k | 0 <= k < |Placeholders| ensures Braced(Placeholders[k]) {
        PlaceholdersBraced(k);
      }
    }
    assert forall j, k | 0 <= j < k < |Placeholders| :: Placeholders[j] != Placeholders[k] by {
      forall j, k | 0 <= j < k < |Placeholders| ensures Placeholders[j] != Placeholders[k] {
        PlaceholdersDistinct(j, k);
      }
    }
    [ (Placeholders[0], fill.degF),
      (Placeholders[1], fill.degC),
      (Placeholders[2], fill.weatherEmoji),
      (Placeholders[3], fill.psTime),
      (Placeholders[4], fill.todayDay),
      (Placeholders[5], fill.dayBubbleWidth) ]
  }

  /** No pattern of `subs` occurs in `s`. */
  predicate NoneOccurs(s: string, subs: seq<(string, string)>)
  {
    forall k | 0 <= k < |subs| :: !Contains(s, subs[k].0)
  }

  /** Every pattern of `subs` is non-empty. */
  predicate Patterns(subs: seq<(string, string)>)
  {
    forall k | 0 <= k < |subs| :: subs[k].0 != []
  }

  /**
   * The result of replacing each pattern of `subs` in turn, first to last.
   * A text holding none of the patterns comes out of the chain unchanged.
   */
  function ApplyAll(s: string, subs: seq<(string, string)>): (r: string)
    ensures Patterns(subs) && NoneOccurs(s, subs) ==> r == s
    decreases |subs|
  {
    if subs == [] then s
    else
      var tail := subs[1..];
      assert forall k | 0 <= k < |tail| :: tail[k] == subs[k + 1];
      assert Patterns(subs) && NoneOccurs(s, subs) ==> Replace(s, subs[0].0, subs[0].1) == s by {
        if Patterns(subs) && NoneOccurs(s, subs) {
          ReplaceAbsent(s, subs[0].0, subs[0].1);
        }
      }
      ApplyAll(Replace(s, subs[0].0, subs[0].1), tail)
  }

  /** Every value of `subs` is inert for every pattern of `subs`. */
  predicate AllInert(subs: seq<(string, string)>)
  {
    forall j, k | 0 <= j < |subs| && 0 <= k < |subs| :: Inert(subs[j].1, subs[k].0)
  }

  /** Values inert for `q` create no occurrence of `q` anywhere in the chain. */
  lemma {:induction false} ApplyAllCreatesNothing(s: string, subs: seq<(string, string)>, q: string)
    requires forall k | 0 <= k < |subs| :: subs[k].0 != [] && Inert(subs[k].1, q)
    requires Contains(ApplyAll(s, subs), q)
    ensures Contains(s, q)
    decreases |subs|
  {
    if subs != [] {
      var s' := Replace(s, subs[0].0, subs[0].1);
      assert forall k | 0 <= k < |subs| - 1 :: subs[1..][k] == subs[k + 1];
      ApplyAllCreatesNothing(s', subs[1..], q);
      ReplaceCreatesNothing(s, subs[0].0, subs[0].1, q);
    }
  }

  /**
   * When every value is inert for every pattern, no pattern survives the
   * chain, whatever the text.
   */
  lemma {:induction false} ApplyAllClears(s: string, subs: seq<(string, string)>)
    requires AllInert(subs)
    ensures NoneOccurs(ApplyAll(s, subs), subs)
    decreases |subs|
  {
    if subs != [] {
      var s' := Replace(s, subs[0].0, subs[0].1);
      var tail := subs[1..];
      assert forall k | 0 <= k < |tail| :: tail[k] == subs[k + 1];
      ApplyAllClears(s', tail);
      ReplaceRemoves(s, subs[0].0, subs[0].1);
      forall k | 0 <= k < |subs| ensures !Contains(ApplyAll(s, subs), subs[k].0) {
        if k > 0 {
          assert tail[k - 1] == subs[k];
        } else if Contains(ApplyAll(s', tail), subs[0].0) {
          forall j | 0 <= j < |tail| ensures tail[j].0 != [] {
            assert Inert(tail[j].1, tail[j].0);
          }
          ApplyAllCreatesNothing(s', tail, subs[0].0);
        }
      }
    }
  }

  /**
   * Filling a template: the chain of six replacements. A template without
   * placeholders is rendered as it is.
   */
  function Render(template: string, fill: Fill): (r: string)
    ensures (forall k | 0 <= k < |Placeholders| :: !Contains(template, Placeholders[k])) ==> r == template
  {
    ApplyAll(template, Substitutions(fill))
  }

  /** `v` can take no part in forming any placeholder. */
  predicate InertValue(v: string)
  {
    forall k | 0 <= k < |Placeholders| :: Inert(v, Placeholders[k])
  }

  /** Every text of `fill` is inert. */
  predicate InertFill(fill: Fill)
  {
    forall k | 0 <= k < |Placeholders| :: InertValue(Value(fill, k))
  }

  /** The six texts of `fill` being inert one by one makes `fill` inert. */
  lemma InertFillOf(fill: Fill)
    requires InertValue(fill.degF) && InertValue(fill.degC) && InertValue(fill.weatherEmoji)
    requires InertValue(fill.psTime) && InertValue(fill.todayDay) && InertValue(fill.dayBubbleWidth)
    ensures InertFill(fill)
  {
  }

  /** With inert values no placeholder is left in the rendered card. */
  lemma RenderClears(template: string, fill: Fill)
    requires InertFill(fill)
    ensures forall k | 0 <= k < |Placeholders| :: !Contains(Render(template, fill), Placeholders[k])
  {
    var subs := Substitutions(fill);
    SubstitutionsInert(fill, subs);
    ApplyAllClears(template, subs);
    RenderNoneOccurs(template, fill, subs);
  }

  lemma RenderNoneOccurs(template: string, fill: Fill, subs: seq<(string, string)>)
    requires subs == Substitutions(fill)
    requires NoneOccurs(ApplyAll(template, subs), subs)
    ensures forall k | 0 <= k < |Placeholders| :: !Contains(Render(template, fill), Placeholders[k])
  {
    forall k | 0 <= k < |Placeholders| ensures !Contains(ApplyAll(template, subs), Placeholders[k]) {
      assert subs[k].0 == Placeholders[k];
    }
  }

  lemma InertAt(v: string, k: nat)
    requires InertValue(v) && k < |Placeholders|
    ensures Inert(v, Placeholders[k])
  {
  }

  lemma SubstitutionsInert(fill: Fill, subs: seq<(string, string)>)
    requires InertFill(fill) && subs == Substitutions(fill)
    ensures AllInert(subs)
  {
    forall j, k | 0 <= j < |subs| && 0 <= k < |subs| ensures Inert(subs[j].1, subs[k].0) {
      SubstitutionPairInert(fill, j, k);
    }
  }

  lemma SubstitutionPairInert(fill: Fill, j: nat, k: nat)
    requires InertFill(fill) && j < |Placeholders| && k < |Placeholders|
    ensures Inert(Substitutions(fill)[j].1, Substitutions(fill)[k].0)
  {
    var subs := Substitutions(fill);
    InertAt(Value(fill, j), k);
    assert subs[j] == (Placeholders[j], Value(fill, j));
    assert subs[k] == (Placeholders[k], Value(fill, k));
  }

  /** The chain written out as the source writes it, one replacement per line. */
  lemma RenderSteps(template: string, fill: Fill)
    ensures Render(template, fill) ==
      var s1 := Replace(template, "{degF}", fill.degF);
      var s2 := Replace(s1, "{degC}", fill.degC);
      var s3 := Replace(s2, "{weatherEmoji}", fill.weatherEmoji);
      var s4 := Replace(s3, "{psTime}", fill.psTime);
      var s5 := Replace(s4, "{todayDay}", fill.todayDay);
      Replace(s5, "{dayBubbleWidth}", fill.dayBubbleWidth)
  {
    var subs := Substitutions(fill);
    var s1 := Replace(template, "{degF}", fill.degF);
    var s2 := Replace(s1, "{degC}", fill.degC);
    var s3 := Replace(s2, "{weatherEmoji}", fill.weatherEmoji);
    var s4 := Replace(s3, "{psTime}", fill.psTime);
    var s5 := Replace(s4, "{todayDay}", fill.todayDay);
    var s6 := Replace(s5, "{dayBubbleWidth}", fill.dayBubbleWidth);
    assert ApplyAll(s6, subs[6..]) == s6;
    assert ApplyAll(s5, subs[5..]) == s6;
    assert ApplyAll(s4, subs[4..]) == s6;
    assert ApplyAll(s3, subs[3..]) == s6;
    assert ApplyAll(s2, subs[2..]) == s6;
    assert ApplyAll(s1, subs[1..]) == s6;
  }

  /**
   * Keeping `{` out of the values is not enough: a value can complete a
   * placeholder from the text around the one it replaces. Here `psTime`
   * turns `{{psTime}}` into `{degF}`, which no later step removes.
   */
  lemma BraceFreeValuesCanLeaveAPlaceholder(template: string, fill: Fill)
    requires template == "{{psTime}}" && fill.psTime == "degF"
    ensures '{' !in fill.psTime
    ensures Contains(Render(template, fill), "{degF}")
  {
    RenderSteps(template, fill);
    BraceFreeStepsLeaveDegF(template, fill);
  }

  /** The six steps of the counterexample, without the fold, end in `{degF}`. */
  lemma BraceFreeStepsLeaveDegF(template: string, fill: Fill)
    requires template == "{{psTime}}" && fill.psTime == "degF"
    ensures var s4 := Replace(Replace(Replace(Replace(template, "{degF}", fill.degF), "{degC}", fill.degC),
                                      "{weatherEmoji}", fill.weatherEmoji), "{psTime}", fill.psTime);
      Contains(Replace(Replace(s4, "{todayDay}", fill.todayDay), "{dayBubbleWidth}", fill.dayBubbleWidth), "{degF}")
  {
    var s4 := Replace(Replace(Replace(Replace(template, "{degF}", fill.degF), "{degC}", fill.degC),
                                      "{weatherEmoji}", fill.weatherEmoji), "{psTime}", fill.psTime);
    PsTimeWrapped(template, fill);
    DegFInBraces(fill.psTime);
    DegFSurvivesLastSteps(s4, fill);
    assert StartsWith("{degF}", "{degF}");
  }

  // The literals of the counterexample are passed as parameters equal to
  // them, so that the solver does not unfold the string literals in every
  // step of the proof above; each of these small lemmas states one fact
  // about one literal.

  lemma PsTimeTemplate(t: string)
    requires t == "{{psTime}}"
    ensures t == "{" + Placeholders[3] + "}"
  {
  }

  lemma DegFInBraces(v: string)
    requires v == "degF"
    ensures "{" + v + "}" == "{degF}"
  {
  }

  /** The first four steps of the counterexample wrap the time text in braces. */
  lemma PsTimeWrapped(t: string, fill: Fill)
    requires t == "{{psTime}}"
    ensures Replace(Replace(Replace(Replace(t, "{degF}", fill.degF), "{degC}", fill.degC),
                            "{weatherEmoji}", fill.weatherEmoji), "{psTime}", fill.psTime)
         == "{" + fill.psTime + "}"
  {
    FirstStepsSkip(t, fill);
    PlaceholdersBraced(3);
    PsTimeTemplate(t);
    ReplaceInBraces(Placeholders[3], fill.psTime);
  }

  /** A text lacking `F`, `C` and `E` passes the first three steps unchanged. */
  lemma FirstStepsSkip(s: string, fill: Fill)
    requires 'F' !in s && 'C' !in s && 'E' !in s
    ensures Replace(Replace(Replace(s, "{degF}", fill.degF), "{degC}", fill.degC),
                    "{weatherEmoji}", fill.weatherEmoji) == s
  {
    ReplaceForeign(s, "{degF}", fill.degF, 'F');
    ReplaceForeign(s, "{degC}", fill.degC, 'C');
    ReplaceForeign(s, "{weatherEmoji}", fill.weatherEmoji, 'E');
  }

  /** A placeholder inside an extra pair of braces keeps those braces around its value. */
  lemma ReplaceInBraces(p: string, v: string)
    requires Braced(p) && |p| > 2
    ensures Replace("{" + p + "}", p, v) == "{" + v + "}"
  {
    var s := "{" + p + "}";
    assert s == ['{'] + (p + "}");
    assert !StartsWith(s, p);
    ReplaceSkip('{', p + "}", p, v);
    ReplaceAtMatch("}", p, v);
    ReplaceForeign("}", p, v, '{');
    assert ['{'] + (v + "}") == "{" + v + "}";
  }

  /** The last two steps of the counterexample leave `{degF}` alone. */
  lemma DegFSurvivesLastSteps(u: string, fill: Fill)
    requires u == "{degF}"
    ensures Replace(Replace(u, "{todayDay}", fill.todayDay), "{dayBubbleWidth}", fill.dayBubbleWidth) == "{degF}"
  {
    ReplaceForeign(u, "{todayDay}", fill.todayDay, 't');
    ReplaceForeign(u, "{dayBubbleWidth}", fill.dayBubbleWidth, 'B');
  }

  // ---------------------------------------------------------------------
  // Each placeholder is filled in its own place

  /** A template seen as literal text and placeholder holes. */
  datatype Piece = Lit(text: string) | Hole(index: nat)

  /** The text of `pieces` with holes below `done` filled in and the rest left as placeholders. */
  function Partial(pieces: seq<Piece>, fill: Fill, done: nat): string
    requires forall i | 0 <= i < |pieces| :: pieces[i].Hole? ==> pieces[i].index < |Placeholders|
    decreases |pieces|
  {
    if pieces == [] then ""
    else
      var head := match pieces[0]
        case Lit(t) => t
        case Hole(k) => if k < done then Value(fill, k) else Placeholders[k];
      head + Partial(pieces[1..], fill, done)
  }

  /** A placeholder proper: `{`, then a name without braces, then `}`. */
  predicate Braced(q: string)
  {
    |q| >= 2 && q[0] == '{' && q[|q| - 1] == '}'
    && forall i | 0 < i < |q| - 1 :: q[i] != '{' && q[i] != '}'
  }

  lemma PlaceholdersBraced(k: nat)
    requires k < |Placeholders|
    ensures Braced(Placeholders[k])
  {
  }

  lemma PlaceholdersDistinct(j: nat, k: nat)
    requires j < |Placeholders| && k < |Placeholders| && j != k
    ensures Placeholders[j] != Placeholders[k]
  {
    var p, q := Placeholders[j], Placeholders[k];
    if |p| == |q| && {j, k} == {0, 1} {
      assert p[4] != q[4];
    }
  }

  /** A placeholder that starts where another one stands is that one. */
  lemma BracedPrefix(p: string, q: string, b: string)
    requires Braced(p) && Braced(q) && StartsWith(q + b, p)
    ensures p == q
  {
    if |p| < |q| {
      assert false;
    } else if |p| > |q| {
      StartsWithAt(q + b, p, |q| - 1);
      assert false;
    } else {
      assert p == (q + b)[..|p|] == q;
    }
  }

  /** Replacing `p` skips over a different placeholder `q`. */
  lemma ReplaceSkipsPlaceholder(q: string, b: string, p: string, v: string)
    requires Braced(p) && Braced(q) && p != q
    ensures Replace(q + b, p, v) == q + Replace(b, p, v)
  {
    if StartsWith(q + b, p) {
      BracedPrefix(p, q, b);
    }
    var c, t := q[0], q[1..];
    BracedTail(q);
    assert q + b == [c] + (t + b);
    ReplaceSkip(c, t + b, p, v);
    ReplaceSkipFree(t, b, p, v);
    ConsAssoc(c, t, Replace(b, p, v), q);
  }

  /** After its opening brace a placeholder has no `{`. */
  lemma BracedTail(q: string)
    requires Braced(q)
    ensures '{' !in q[1..]
  {
    forall i | 0 <= i < |q| - 1 ensures q[1..][i] != '{' {
      assert q[1..][i] == q[i + 1];
    }
  }

  /** Concatenation regrouped around the first character of `q`. */
  lemma ConsAssoc(c: char, t: string, r: string, q: string)
    requires q == [c] + t
    ensures [c] + (t + r) == q + r
  {
  }

  /** One step of the chain fills exactly the holes of the next placeholder. */
  lemma {:induction false} FillStep(pieces: seq<Piece>, fill: Fill, done: nat)
    requires done < |Placeholders|
    requires forall i | 0 <= i < |pieces| :: pieces[i].Hole? ==> pieces[i].index < |Placeholders|
    requires forall i | 0 <= i < |pieces| :: pieces[i].Lit? ==> '{' !in pieces[i].text
    requires forall k | 0 <= k < done :: '{' !in Value(fill, k)
    ensures Replace(Partial(pieces, fill, done), Placeholders[done], Value(fill, done))
         == Partial(pieces, fill, done + 1)
    decreases |pieces|
  {
    var p, v := Placeholders[done], Value(fill, done);
    PlaceholdersBraced(done);
    if pieces != [] {
      var rest := pieces[1..];
      FillStep(rest, fill, done);
      match pieces[0]
      case Lit(t) =>
        ReplaceSkipFree(t, Partial(rest, fill, done), p, v);
      case Hole(k) =>
        if k < done {
          ReplaceSkipFree(Value(fill, k), Partial(rest, fill, done), p, v);
        } else if k == done {
          ReplaceAtMatch(Partial(rest, fill, done), p, v);
        } else {
          PlaceholdersBraced(k);
          PlaceholdersDistinct(done, k);
          ReplaceSkipsPlaceholder(Placeholders[k], Partial(rest, fill, done), p, v);
        }
    }
  }

  /**
   * In a template whose only braces are those of its placeholders, and
   * with brace-free values, every placeholder is replaced by its own value
   * in its own place and all other text is kept.
   */
  lemma RenderInPlace(pieces: seq<Piece>, fill: Fill)
    requires forall i | 0 <= i < |pieces| :: pieces[i].Hole? ==> pieces[i].index < |Placeholders|
    requires forall i | 0 <= i < |pieces| :: pieces[i].Lit? ==> '{' !in pieces[i].text
    requires forall k | 0 <= k < |Placeholders| :: '{' !in Value(fill, k)
    ensures Render(Partial(pieces, fill, 0), fill) == Partial(pieces, fill, |Placeholders|)
  {
    FillFrom(pieces, fill, 0);
    assert Substitutions(fill)[0..] == Substitutions(fill);
  }

  /** The steps of the chain from `done` on fill the remaining holes. */
  lemma {:induction false} FillFrom(pieces: seq<Piece>, fill: Fill, done: nat)
    requires done <= |Placeholders|
    requires forall i | 0 <= i < |pieces| :: pieces[i].Hole? ==> pieces[i].index < |Placeholders|
    requires forall i | 0 <= i < |pieces| :: pieces[i].Lit? ==> '{' !in pieces[i].text
    requires forall k | 0 <= k < |Placeholders| :: '{' !in Value(fill, k)
    ensures ApplyAll(Partial(pieces, fill, done), Substitutions(fill)[done..]) == Partial(pieces, fill, |Placeholders|)
    decreases |Placeholders| - done
  {
    var subs := Substitutions(fill);
    if done < |Placeholders| {
      FillStep(pieces, fill, done);
      assert subs[done..][1..] == subs[done + 1..];
      FillFrom(pieces, fill, done + 1);
    }
  }

  // ---------------------------------------------------------------------
  // Which values are inert

  /** Text solely of characters outside ASCII, such as an emoji. */
  predicate NonAscii(v: string)
  {
    v != [] && forall i | 0 <= i < |v| :: v[i] as int >= 128
  }

  /** The characters placeholders are made of: braces and ASCII letters. */
  predicate NameChar(c: char)
  {
    c == '{' || c == '}' || 'a' <= c <= 'z' || 'A' <= c <= 'Z'
  }

  lemma PlaceholderChars(k: nat)
    requires k < |Placeholders|
    ensures forall i | 0 <= i < |Placeholders[k]| :: NameChar(Placeholders[k][i])
  {
  }

  /** A nonempty value made only of characters no placeholder uses is inert. */
  lemma ForeignInert(v: string)
    requires v != [] && forall i | 0 <= i < |v| :: !NameChar(v[i])
    ensures InertValue(v)
  {
    forall k | 0 <= k < |Placeholders| ensures Inert(v, Placeholders[k]) {
      var q := Placeholders[k];
      PlaceholderChars(k);
      assert NameChar(q[0]) && NameChar(q[|q| - 1]);
      ForeignChar(q, v, v[0]);
    }
  }

  lemma NonAsciiInert(v: string)
    requires NonAscii(v)
    ensures InertValue(v)
  {
    ForeignInert(v);
  }

  /** `str(n)` is inert: placeholders hold neither digits nor `-`. */
  lemma DecimalInert(n: int)
    ensures InertValue(Decimal.IntToString(n))
  {
    Decimal.IntToStringChars(n);
    ForeignInert(Decimal.IntToString(n));
  }

  /**
   * A brace-free value is inert when, for each placeholder, it holds a
   * character that the placeholder lacks.
   */
  lemma InertByWitnesses(v: string, witnesses: string)
    requires '{' !in v && '}' !in v
    requires |witnesses| == |Placeholders|
    requires forall k | 0 <= k < |Placeholders| :: witnesses[k] in v && witnesses[k] !in Placeholders[k]
    ensures InertValue(v)
  {
    forall k | 0 <= k < |Placeholders| ensures Inert(v, Placeholders[k]) {
      ForeignChar(Placeholders[k], v, witnesses[k]);
    }
  }

  /**
   * The weekday names are inert. Each is shown so by a witness string whose
   * character `k` is a letter of the day that `Placeholders[k]` lacks: for
   * "Tuesday", `u` stands in for `{psTime}`, which holds a `T`.
   */
  lemma WeekdayInert(day: string)
    requires day in Weekdays
    ensures InertValue(day)
  {
    if day == "Monday" || day == "Tuesday" {
      EarlyWeekdayInert(day);
    } else if day == "Wednesday" || day == "Thursday" {
      MidWeekdayInert(day);
    } else {
      LateWeekdayInert(day);
    }
  }

  lemma EarlyWeekdayInert(day: string)
    requires day == "Monday" || day == "Tuesday"
    ensures InertValue(day)
  {
    if day == "Monday" {
      InertByWitnesses(day, "MMMMMM");
    } else {
      InertByWitnesses(day, "TTTuTT");
    }
  }

  lemma MidWeekdayInert(day: string)
    requires day == "Wednesday" || day == "Thursday"
    ensures InertValue(day)
  {
    if day == "Wednesday" {
      InertByWitnesses(day, "WWWWWn");
    } else {
      InertByWitnesses(day, "TTThTT");
    }
  }

  lemma LateWeekdayInert(day: string)
    requires day == "Friday" || day == "Saturday" || day == "Sunday"
    ensures InertValue(day)
  {
    if day == "Friday" {
      InertByWitnesses(day, "rFFFFF");
    } else {
      InertByWitnesses(day, "SSSSSS");
    }
  }
}
