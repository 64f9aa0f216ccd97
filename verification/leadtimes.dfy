/** The seasonal-forecast request helpers: the lead-time list, `f"{h:03}"` for every
    hour of `range(start_h, end_h + 1, freq_h)`, and `as_list`, which renders each
    request value as a string. */
module LeadTimes {
  import opened Wrappers
  import opened Builtins
  import opened Decimal

  /** Whole hours in a duration of `seconds`: `int(seconds / 3600)` truncates toward zero. */
  function HoursOf(seconds: int): (h: int)
    ensures seconds >= 0 ==> 3600 * h <= seconds < 3600 * h + 3600
    ensures seconds < 0 ==> 3600 * h - 3600 < seconds <= 3600 * h
  {
    TruncDiv(seconds, 3600)
  }

  /** The lead hours requested: `range(start_h, end_h + 1, freq_h)`. */
  function LeadHours(startH: int, endH: int, freqH: int): Result<seq<int>, Exception>
  {
    Range(startH, endH + 1, freqH)
  }

  /** `generate_lead_times_hours` once the durations are whole hours: each lead hour
      rendered zero-padded to at least three characters. */
  function GenerateLeadTimes(startH: int, endH: int, freqH: int): (r: Result<seq<string>, Exception>)
    ensures freqH == 0 <==> r == Failure(ValueError)
    ensures r.Success? ==>
      var hours := LeadHours(startH, endH, freqH).value;
      && |r.value| == |hours|
      && forall k :: 0 <= k < |r.value| ==> IsFormat03(r.value[k], hours[k])
  {
    match LeadHours(startH, endH, freqH)
    case Failure(e) => Failure(e)
    case Success(hours) => Success(seq(|hours|, k requires 0 <= k < |hours| => Format03(hours[k])))
  }

  /** For a positive step there are `(end_h - start_h) / freq_h + 1` lead times when
      `end_h >= start_h` and none otherwise. */
  lemma LeadTimeCount(startH: int, endH: int, freqH: int)
    requires freqH > 0
    ensures var r := GenerateLeadTimes(startH, endH, freqH);
      r.Success? && |r.value| == (if endH >= startH then (endH - startH) / freqH + 1 else 0)
  {
    var hours := LeadHours(startH, endH, freqH).value;
    assert |hours| == RangeLength(startH, endH + 1, freqH);
    if endH >= startH {
      assert (endH + 1) - startH - 1 == endH - startH;
    }
  }

  /** For a positive step the lead times read back as `start_h`, `start_h + freq_h`,
      ..., all at most `end_h`, with one more step past it. */
  lemma LeadTimesAscend(startH: int, endH: int, freqH: int)
    requires freqH > 0
    ensures var r := GenerateLeadTimes(startH, endH, freqH).value;
      && (|r| > 0 ==> ParseInt(r[0]) == Some(startH))
      && (forall k :: 0 <= k < |r| ==> ParseInt(r[k]).Some? && ParseInt(r[k]).value <= endH)
      && (forall k :: 0 <= k < |r| - 1 ==> ParseInt(r[k + 1]).value == ParseInt(r[k]).value + freqH)
      && (|r| > 0 ==> ParseInt(r[|r| - 1]).value + freqH > endH)
  {
    var hours := LeadHours(startH, endH, freqH).value;
    var r := GenerateLeadTimes(startH, endH, freqH).value;
    assert IsRange(hours, startH, endH + 1, freqH);
    assert |r| == |hours|;
    forall k | 0 <= k < |r| ensures ParseInt(r[k]) == Some(hours[k]) && hours[k] <= endH {
    }
  }

  /** The first lead time is `start_h`; the last is the largest `start_h + k*freq_h`
      not past `end_h`. */
  lemma FirstAndLastLeadTime(startH: int, endH: int, freqH: int)
    requires freqH > 0 && endH >= startH
    ensures var r := GenerateLeadTimes(startH, endH, freqH).value;
      var last := startH + (endH - startH) / freqH * freqH;
      && |r| > 0
      && ParseInt(r[0]) == Some(startH)
      && ParseInt(r[|r| - 1]) == Some(last)
      && last <= endH < last + freqH
  {
    var hours := LeadHours(startH, endH, freqH).value;
    LeadTimeCount(startH, endH, freqH);
    var q := (endH - startH) / freqH;
    assert |hours| == q + 1;
    ProgressionClosedForm(hours, startH, freqH);
    assert hours[q] == startH + q * freqH;
  }

  /** A frequency shorter than an hour truncates to zero hours, and `range` then raises. */
  lemma SubHourFrequencyRejected(startSeconds: int, endSeconds: int, freqSeconds: int)
    requires -3600 < freqSeconds < 3600
    ensures GenerateLeadTimes(HoursOf(startSeconds), HoursOf(endSeconds), HoursOf(freqSeconds)) == Failure(ValueError)
  {
  }

  /** The default seasonal request, every 6 hours from 0 to 24, asks for the five
      lead times `f"{h:03}"` of `h` = 0, 6, 12, 18, 24 (see `Decimal.Format03Examples`). */
  lemma SixHourlyExample()
    ensures LeadHours(0, 24, 6) == Success([0, 6, 12, 18, 24])
    ensures var r := GenerateLeadTimes(0, 24, 6);
      r.Success? && |r.value| == 5 && forall k :: 0 <= k < 5 ==> r.value[k] == Format03(6 * k)
  {
    var hours := [0, 6, 12, 18, 24];
    assert IsRange(hours, 0, 25, 6);
    RangeUnique(hours, 0, 25, 6);
    var r := GenerateLeadTimes(0, 24, 6).value;
    forall k | 0 <= k < 5 ensures r[k] == Format03(6 * k) {
      assert r[k] == Format03(hours[k]);
      assert hours[k] == 6 * k;
    }
  }

  /** A value passed into a request: a number or a string. */
  datatype Value = IntValue(i: int) | StrValue(s: string)

  /** Python's `str(v)`. */
  function StrOf(v: Value): string
  {
    match v
    case IntValue(i) => Str(i)
    case StrValue(s) => s
  }

  /** The argument of `as_list`: a list, or a bare string, which `list(x)` splits into
      its characters. */
  datatype Argument = ListArgument(items: seq<Value>) | TextArgument(text: string)

  /** `as_list`: the argument as a list of strings. */
  function AsList(x: Argument): (r: seq<string>)
    ensures x.ListArgument? ==>
      && |r| == |x.items|
      && forall k :: 0 <= k < |r| ==>
           match x.items[k]
           case IntValue(i) => Canonical(r[k]) && ParseInt(r[k]) == Some(i)
           case StrValue(s) => r[k] == s
    ensures x.TextArgument? ==>
      && |r| == |x.text|
      && forall k :: 0 <= k < |r| ==> r[k] == [x.text[k]]
  {
    match x
    case ListArgument(items) => seq(|items|, k requires 0 <= k < |items| => StrOf(items[k]))
    case TextArgument(text) => seq(|text|, k requires 0 <= k < |text| => [text[k]])
  }
}
