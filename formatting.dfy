/** The two display helpers of youtube-analyzer.py: `format_time`, which words
    a video's age in days, and `format_views`, which compacts a view count. */
module Formatting {
  import opened Text

  // ---------------------------------------------------------------------------
  // format_time

  /** How long ago a video was published, in the words format_time can give. */
  datatype Recency = Today | DaysAgo(days: nat) | MonthsAgo(months: nat) | YearsAgo(years: nat)

  /** The bucket format_time picks for the whole-day age `delta`
      ((now - published).days in the script, negative for a future date). */
  function RecencyOf(delta: int): (r: Recency)
    ensures r == Today <==> delta < 1
    ensures r.DaysAgo? <==> 1 <= delta < 30
    ensures r.MonthsAgo? <==> 30 <= delta < 365
    ensures r.YearsAgo? <==> 365 <= delta
    ensures r.DaysAgo? ==> r.days == delta
    ensures r.MonthsAgo? ==> 1 <= r.months <= 12 && 30 * r.months <= delta < 30 * r.months + 30
    ensures r.YearsAgo? ==> r.years >= 1 && 365 * r.years <= delta < 365 * r.years + 365
  {
    if delta < 1 then Today
    else if delta < 30 then DaysAgo(delta)
    else if delta < 365 then MonthsAgo(delta / 30)
    else YearsAgo(delta / 365)
  }

  const TodayText: string := "Hari ini"
  const DaysSuffix: string := " hari lalu"
  const MonthsSuffix: string := " bulan lalu"
  const YearsSuffix: string := " tahun lalu"

  function RecencyText(r: Recency): string {
    match r
    case Today => TodayText
    case DaysAgo(n) => NatToString(n) + DaysSuffix
    case MonthsAgo(n) => NatToString(n) + MonthsSuffix
    case YearsAgo(n) => NatToString(n) + YearsSuffix
  }

  /** `format_time`, with the day count as input instead of the clock: its
      text reads back as exactly the bucket RecencyOf(delta). */
  function FormatTime(delta: int): (s: string)
    ensures ReadRecency(s) == Some(RecencyOf(delta))
  {
    RecencyTextRoundTrip(RecencyOf(delta));
    RecencyText(RecencyOf(delta))
  }

  /** The count in front of `suffix`, if s is a numeral (as str writes it)
      followed by it. */
  function CountBefore(s: string, suffix: string): Option<nat> {
    if |s| > |suffix| && s[|s| - |suffix|..] == suffix && IsNumeral(s[..|s| - |suffix|])
    then Some(DigitsValue(s[..|s| - |suffix|]))
    else None
  }

  /** Reads a format_time text back into its bucket. */
  function ReadRecency(s: string): Option<Recency> {
    if s == TodayText then Some(Today)
    else if CountBefore(s, DaysSuffix).Some? then Some(DaysAgo(CountBefore(s, DaysSuffix).value))
    else if CountBefore(s, MonthsSuffix).Some? then Some(MonthsAgo(CountBefore(s, MonthsSuffix).value))
    else if CountBefore(s, YearsSuffix).Some? then Some(YearsAgo(CountBefore(s, YearsSuffix).value))
    else None
  }

  lemma CountBeforeOwnSuffix(n: nat, suffix: string)
    ensures CountBefore(NatToString(n) + suffix, suffix) == Some(n)
  {
    var p := NatToString(n);
    var s := p + suffix;
    assert s[|s| - |suffix|..] == suffix;
    assert s[..|s| - |suffix|] == p;
    NatToStringRoundTrip(n);
  }

  /** Only str(n) followed by `suffix` reads as n. */
  lemma CountBeforeIsOnlyText(s: string, suffix: string, n: nat)
    requires CountBefore(s, suffix) == Some(n)
    ensures s == NatToString(n) + suffix
  {
    var p := s[..|s| - |suffix|];
    NumeralIsOnlyString(p);
    assert s == p + s[|s| - |suffix|..];
  }

  /** A numeral followed by `suffix` does not end in `other` unless `suffix`
      itself does. */
  lemma CountBeforeOtherSuffix(n: nat, suffix: string, other: string)
    requires |other| <= |suffix|
    requires other != suffix[|suffix| - |other|..]
    ensures CountBefore(NatToString(n) + suffix, other) == None
  {
    var s := NatToString(n) + suffix;
    assert s[|s| - |other|..] == suffix[|suffix| - |other|..];
  }

  /** Different buckets are worded differently. */
  lemma RecencyTextRoundTrip(r: Recency)
    ensures ReadRecency(RecencyText(r)) == Some(r)
  {
    match r
    case Today =>
      assert CountBefore(TodayText, DaysSuffix) == None;
    case DaysAgo(n) =>
      assert NatToString(n)[0] != 'H';
      assert RecencyText(r)[0] != TodayText[0];
      CountBeforeOwnSuffix(n, DaysSuffix);
    case MonthsAgo(n) =>
      assert RecencyText(r)[0] != TodayText[0];
      assert DaysSuffix[1] != MonthsSuffix[1..][1];
      CountBeforeOtherSuffix(n, MonthsSuffix, DaysSuffix);
      CountBeforeOwnSuffix(n, MonthsSuffix);
    case YearsAgo(n) =>
      assert RecencyText(r)[0] != TodayText[0];
      assert DaysSuffix[1] != YearsSuffix[1..][1];
      CountBeforeOtherSuffix(n, YearsSuffix, DaysSuffix);
      assert YearsSuffix[1] != MonthsSuffix[1];
      assert MonthsSuffix != YearsSuffix[0..];
      CountBeforeOtherSuffix(n, YearsSuffix, MonthsSuffix);
      CountBeforeOwnSuffix(n, YearsSuffix);
  }

  /** ReadRecency accepts only the wording format_time gives: a text that
      reads as a bucket is that bucket's text. With FormatTime's contract
      this fixes the text of format_time. */
  lemma ReadRecencyIsOnlyText(s: string, r: Recency)
    requires ReadRecency(s) == Some(r)
    ensures s == RecencyText(r)
  {
    if s == TodayText {
    } else if CountBefore(s, DaysSuffix).Some? {
      CountBeforeIsOnlyText(s, DaysSuffix, r.days);
    } else if CountBefore(s, MonthsSuffix).Some? {
      CountBeforeIsOnlyText(s, MonthsSuffix, r.months);
    } else {
      CountBeforeIsOnlyText(s, YearsSuffix, r.years);
    }
  }

  /** The unit of a bucket, from the most to the least recent. */
  function Unit(r: Recency): nat {
    match r
    case Today => 0
    case DaysAgo(_) => 1
    case MonthsAgo(_) => 2
    case YearsAgo(_) => 3
  }

  function Count(r: Recency): nat {
    match r
    case Today => 0
    case DaysAgo(n) => n
    case MonthsAgo(n) => n
    case YearsAgo(n) => n
  }

  /** a reads as no older than b. */
  predicate NoOlder(a: Recency, b: Recency) {
    Unit(a) < Unit(b) || (Unit(a) == Unit(b) && Count(a) <= Count(b))
  }

  /** An older video never reads as more recent than a newer one. */
  lemma RecencyMonotone(d1: int, d2: int)
    requires d1 <= d2
    ensures NoOlder(RecencyOf(d1), RecencyOf(d2))
  {
    if 30 <= d1 < 365 && d2 < 365 {
      assert 30 * (d1 / 30) <= d1 <= d2 < 30 * (d2 / 30) + 30;
    }
    if 365 <= d1 {
      assert 365 * (d1 / 365) <= d1 <= d2 < 365 * (d2 / 365) + 365;
    }
  }

  // ---------------------------------------------------------------------------
  // hitung_vph

  /** `hitung_vph` with the elapsed hours as input and without the rounding
      to two decimals: views per hour since publication, or 0 when no time
      has passed (or the date lies in the future). */
  function Vph(views: int, hours: real): (r: real)
    ensures hours <= 0.0 ==> r == 0.0
    ensures hours > 0.0 ==> r * hours == views as real
    ensures hours > 0.0 && views >= 0 ==> r >= 0.0
  {
    if hours > 0.0 then views as real / hours else 0.0
  }

  // ---------------------------------------------------------------------------
  // format_views

  /** The form format_views gives a view count: scaled to millions or to
      thousands (printed with one decimal and an "M" or "K"), or the plain
      numeral. */
  datatype CompactViews = Millions(scaled: real) | Thousands(scaled: real) | Plain(text: string) {
    function Suffix(): string {
      match this
      case Millions(_) => "M"
      case Thousands(_) => "K"
      case Plain(_) => ""
    }
  }

  /** `format_views` up to the one-decimal rendering of the scaled value. */
  function CompactViewsOf(n: int): (c: CompactViews)
    ensures c.Suffix() == "M" <==> n >= 1_000_000
    ensures c.Suffix() == "K" <==> 1_000 <= n < 1_000_000
    ensures c.Suffix() == "" <==> n < 1_000
    ensures c.Millions? ==> c.scaled >= 1.0 && c.scaled * 1_000_000.0 == n as real
    ensures c.Thousands? ==> 1.0 <= c.scaled < 1_000.0 && c.scaled * 1_000.0 == n as real
    ensures c.Plain? ==> ParseInt(c.text) == Some(n)
  {
    if n >= 1_000_000 then Millions(n as real / 1_000_000.0)
    else if n >= 1_000 then Thousands(n as real / 1_000.0)
    else
      IntToStringRoundTrip(n);
      Plain(IntToString(n))
  }
}
