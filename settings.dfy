/** The settings validators and defaults (twitterscraper/settings.py). */
module Settings {
  import opened Wrappers
  import opened Strings

  /** The raw value a `pre=True` validator receives: a string, or any other
      value, which every validator here passes through. */
  datatype Raw<T> = RawStr(s: string) | RawOther(other: T)

  // ---------------------------------------------------------------------
  // AMQPSettings.Queues.QueueConfig

  datatype QueueConfig = QueueConfig(name: string, persistent: bool, workers: int)

  /** A queue config built from its settings, the omitted ones defaulting
      to `persistent = True` and `workers = 10`. */
  function MakeQueueConfig(name: string, persistent: Option<bool>, workers: Option<int>): (c: QueueConfig)
    ensures c.name == name
    ensures c.persistent <==> persistent != Some(false)
    ensures workers.None? ==> c.workers == 10
    ensures workers.Some? ==> c.workers == workers.value
  {
    QueueConfig(name,
      if persistent.Some? then persistent.value else true,
      if workers.Some? then workers.value else 10)
  }

  // ---------------------------------------------------------------------
  // TwitterSettings.nitter_baseurl

  const DefaultNitterBaseurl := "https://nitter.net"

  /** `_nitter_baseurl_string_to_list`: a single string becomes a
      one-element list; any other value is returned as it came. */
  function NitterBaseurlStringToList(v: Raw<seq<string>>): (r: Raw<seq<string>>)
    ensures v.RawStr? ==> r == RawOther([v.s])
    ensures v.RawOther? ==> r == v
  {
    match v
    case RawStr(s) => RawOther([s])
    case RawOther(_) => v
  }

  /** pydantic's field validation: `min_items=1`, and each item an
      `AnyHttpUrl`. */
  datatype ValidationError = TooFewItems | InvalidUrl(url: string)

  /** pydantic's `AnyHttpUrl` check of one item, a parameter: the URL
      grammar is pydantic's own. */
  type UrlCheck = string -> bool

  /** The item check over a list: the first item that is not an http(s)
      URL, if any. */
  function FirstInvalidUrl(urls: seq<string>, isUrl: UrlCheck): (r: Option<nat>)
    ensures r.None? <==> forall i | 0 <= i < |urls| :: isUrl(urls[i])
    ensures r.Some? ==> r.value < |urls| && !isUrl(urls[r.value]) && forall i | 0 <= i < r.value :: isUrl(urls[i])
    decreases |urls|
  {
    if urls == [] then None
    else if !isUrl(urls[0]) then Some(0)
    else
      var rest := FirstInvalidUrl(urls[1..], isUrl);
      assert forall i | 1 <= i < |urls| :: urls[i] == urls[1..][i - 1];
      if rest.None? then None else Some(rest.value + 1)
  }

  /** A list as the field's validation takes it. */
  function CheckUrls(urls: seq<string>, isUrl: UrlCheck): Result<seq<string>, ValidationError> {
    if |urls| < 1 then Err(TooFewItems)
    else match FirstInvalidUrl(urls, isUrl)
      case Some(i) => Err(InvalidUrl(urls[i]))
      case None => Ok(urls)
  }

  /** The field as pydantic fills it: a given value goes through the
      validator, then the `min_items=1` and URL checks; an omitted one takes
      the default, on which pydantic runs no validator, so the field holds
      the string itself. */
  function NitterBaseurlFieldAsWritten(v: Option<Raw<seq<string>>>, isUrl: UrlCheck): Result<Raw<seq<string>>, ValidationError>
  {
    match v
    case None => Ok(RawStr(DefaultNitterBaseurl))
    case Some(given) =>
      match NitterBaseurlStringToList(given)
      case RawStr(_) => Ok(given)
      case RawOther(urls) =>
        match CheckUrls(urls, isUrl)
        case Ok(checked) => Ok(RawOther(checked))
        case Err(e) => Err(e)
  }

  /** Omitting the setting leaves a plain string in the list-typed field;
      a client built from it iterates over its characters. */
  lemma DefaultNitterBaseurlIsNotAList(isUrl: UrlCheck)
    ensures NitterBaseurlFieldAsWritten(None, isUrl) == Ok(RawStr("https://nitter.net"))
    ensures NitterBaseurlFieldAsWritten(None, isUrl).value != RawOther(["https://nitter.net"])
  {
  }

  /** The field as evidently intended: always a list of at least one URL,
      the default being the one-element list. */
  function NitterBaseurlField(v: Option<Raw<seq<string>>>, isUrl: UrlCheck): (r: Result<seq<string>, ValidationError>)
    ensures v.None? ==> r == Ok([DefaultNitterBaseurl])
    ensures r.Ok? ==> |r.value| >= 1
    ensures v.Some? && r.Ok? ==> forall i | 0 <= i < |r.value| :: isUrl(r.value[i])
    ensures v == Some(RawOther([])) ==> r == Err(TooFewItems)
    ensures v.Some? && v.value.RawStr? ==> (r.Ok? <==> isUrl(v.value.s))
    ensures v.Some? && v.value.RawOther? ==>
      (r.Ok? <==> |v.value.other| >= 1 && forall i | 0 <= i < |v.value.other| :: isUrl(v.value.other[i]))
  {
    var given := if v.Some? then v.value else RawStr(DefaultNitterBaseurl);
    match NitterBaseurlStringToList(given)
    case RawStr(_) => Ok([DefaultNitterBaseurl])
    case RawOther(urls) => if v.None? then Ok(urls) else CheckUrls(urls, isUrl)
  }

  /** On a given value the intended field agrees with the one as written. */
  lemma {:induction false} NitterBaseurlFieldAgreesWhenGiven(v: Raw<seq<string>>, isUrl: UrlCheck)
    ensures NitterBaseurlFieldAsWritten(Some(v), isUrl).Ok? <==> NitterBaseurlField(Some(v), isUrl).Ok?
    ensures NitterBaseurlField(Some(v), isUrl).Ok? ==>
      NitterBaseurlFieldAsWritten(Some(v), isUrl).value == RawOther(NitterBaseurlField(Some(v), isUrl).value)
    ensures NitterBaseurlField(Some(v), isUrl).Err? ==>
      NitterBaseurlFieldAsWritten(Some(v), isUrl).error == NitterBaseurlField(Some(v), isUrl).error
  {
  }

  // ---------------------------------------------------------------------
  // TasksSettings.Task

  /** `_parse_period`: rewrites a human duration such as "1d5h30s" into
      ISO 8601 ("P1DT5H30S"); values that are not strings pass through. */
  function ParsePeriod<T>(v: Raw<T>): (r: Raw<T>)
    ensures v.RawOther? ==> r == v
    ensures v.RawStr? ==> r.RawStr?
  {
    match v
    case RawOther(_) => v
    case RawStr(s) =>
      var up := Upper(s);
      var withP := if StartsWith(up, "P") then up else "P" + up;
      var withDays := if Contains(withP, "D") && !Contains(withP, "DT") then ReplaceAll(withP, "D", "DT") else withP;
      var result := if !Contains(withDays, "DT") then ReplaceAll(withDays, "P", "PT") else withDays;
      RawStr(result)
  }

  /** A rewritten period is upper-case, starts with "P", and has a time
      part marker: either "DT" or a leading "PT". */
  lemma ParsePeriodShape(s: string)
    ensures var r := ParsePeriod<int>(RawStr(s)).s;
      NoLowerAscii(r) && StartsWith(r, "P") && (Contains(r, "DT") || StartsWith(r, "PT"))
  {
    var up := Upper(s);
    var withP := if StartsWith(up, "P") then up else "P" + up;
    assert withP[0] == 'P';
    assert NoLowerAscii(withP);
    var withDays := withP;
    if Contains(withP, "D") && !Contains(withP, "DT") {
      withDays := ReplaceAll(withP, "D", "DT");
      ReplaceKeepsHead(withP, "D", "DT");
      ReplaceKeepsNoLower(withP, "D", "DT");
      ReplaceKeepsOccurrence(withP, "D", "DT");
    }
    assert withDays[0] == 'P' && NoLowerAscii(withDays);
    if !Contains(withDays, "DT") {
      var r := ReplaceAll(withDays, "P", "PT");
      assert StartsWith(withDays, "P");
      assert r == "PT" + ReplaceAll(withDays[1..], "P", "PT");
      ReplaceKeepsNoLower(withDays, "P", "PT");
    }
  }

  lemma ReplaceDaysStep(s: string)
    requires s == ['P', '1', 'D', '5', 'H', '3', '0', 'S']
    ensures ReplaceAll(s, "D", "DT") == "P1DT5H30S"
  {
    var tail := s[3..];
    assert tail == ['5', 'H', '3', '0', 'S'];
    NotContainsChar(tail, 'D');
    ReplaceAbsent(tail, "D", "DT");
    ReplaceCharCons('D', tail, 'D', "DT");
    assert s[2..] == ['D'] + tail;
    ReplaceCharCons('1', s[2..], 'D', "DT");
    assert s[1..] == ['1'] + s[2..];
    ReplaceCharCons('P', s[1..], 'D', "DT");
    assert s == ['P'] + s[1..];
  }

  /** The upper-cased sample with days. */
  lemma UpperDays(s: string)
    requires s == "1d5h30s"
    ensures Upper(s) == ['1', 'D', '5', 'H', '3', '0', 'S']
  {
  }

  /** The sample once prefixed with "P": it holds "D" but not "DT". */
  lemma DaysMarkers(withP: string)
    requires withP == ['P', '1', 'D', '5', 'H', '3', '0', 'S']
    ensures Contains(withP, "D") && !Contains(withP, "DT")
    ensures Contains("P1DT5H30S", "DT")
  {
    ContainsAt(withP, "D", 2);
    NotContainsPair(withP, 'D', 'T');
    ContainsAt("P1DT5H30S", "DT", 2);
  }

  /** An input with days but no "DT" gets every "D" turned into "DT". */
  lemma ParsePeriodDays(s: string)
    requires s == "1d5h30s"
    ensures ParsePeriod<int>(RawStr(s)) == RawStr("P1DT5H30S")
  {
    var up := Upper(s);
    UpperDays(s);
    assert !StartsWith(up, "P") by { assert up[0] == '1'; }
    var withP := "P" + up;
    assert withP == ['P', '1', 'D', '5', 'H', '3', '0', 'S'];
    DaysMarkers(withP);
    ReplaceDaysStep(withP);
  }

  /** Prefixing "PT" onto a period whose only "P" is its first character. */
  lemma ReplaceLeadingP(s: string, expected: string)
    requires |s| > 0 && s[0] == 'P' && 'P' !in s[1..]
    requires expected == "PT" + s[1..]
    ensures ReplaceAll(s, "P", "PT") == expected
  {
    var tail := s[1..];
    NotContainsChar(tail, 'P');
    ReplaceAbsent(tail, "P", "PT");
    ReplaceCharCons('P', tail, 'P', "PT");
    assert s == ['P'] + tail;
  }

  /** A period without a "D" has neither of the day markers. */
  lemma NoDayMarkers(s: string)
    requires 'D' !in s
    ensures !Contains(s, "D") && !Contains(s, "DT")
  {
    NotContainsChar(s, 'D');
    NotContainsPair(s, 'D', 'T');
  }

  /** An input without days gets "PT" in front of its time part. */
  lemma ParsePeriodMinutes()
    ensures ParsePeriod<int>(RawStr("30m")) == RawStr("PT30M")
  {
    var up := Upper("30m");
    assert up == "30M";
    assert !StartsWith(up, "P") by { assert up[0] == '3'; }
    var withP := "P" + up;
    assert withP == ['P', '3', '0', 'M'];
    NoDayMarkers(withP);
    ReplaceLeadingP(withP, "PT30M");
  }

  /** An ISO duration without days is damaged: "PT30M" becomes "PTT30M",
      although the field's documentation says ISO input is accepted. */
  lemma ParsePeriodDamagesIsoTime()
    ensures ParsePeriod<int>(RawStr("PT30M")) == RawStr("PTT30M")
  {
    var s := "PT30M";
    assert Upper(s) == s;
    assert StartsWith(s, "P");
    NoDayMarkers(s);
    ReplaceLeadingP(s, "PTT30M");
  }

  /** `_parse_arrays`: a string is split on commas and each chunk stripped;
      any other value (a list already) passes through. */
  function ParseArrays(v: Raw<seq<string>>): (r: Raw<seq<string>>)
    ensures v.RawOther? ==> r == v
    ensures v.RawStr? ==>
      (r.RawOther? && |r.other| == |Split(v.s, ',')|
       && forall k | 0 <= k < |r.other| :: r.other[k] == Strip(Split(v.s, ',')[k]))
  {
    match v
    case RawOther(_) => v
    case RawStr(s) =>
      var chunks := Split(s, ',');
      RawOther(seq(|chunks|, k requires 0 <= k < |chunks| => Strip(chunks[k])))
  }

  /** An item of a parsed list: no comma, and no white space at either end. */
  predicate CleanItem(item: string) {
    ',' !in item && (item != [] ==> !IsSpace(item[0]) && !IsSpace(item[|item| - 1]))
  }

  /** A stripped chunk of a comma split is a clean item. */
  lemma ItemShape(chunk: string)
    requires ',' !in chunk
    ensures CleanItem(Strip(chunk))
  {
    StripProperties(chunk);
    StripKeepsAbsent(chunk, ',');
  }

  /** There is one item per comma plus one; no item holds a comma or begins
      or ends with white space. */
  lemma ParseArraysItems(s: string)
    ensures var items := ParseArrays(RawStr(s)).other;
      |items| == Count(s, ',') + 1 && forall k | 0 <= k < |items| :: CleanItem(items[k])
  {
    SplitProperties(s, ',');
    var chunks := Split(s, ',');
    var items := ParseArrays(RawStr(s)).other;
    forall k | 0 <= k < |items|
      ensures CleanItem(items[k])
    {
      ItemShape(chunks[k]);
    }
  }

  /** `period_seconds`: `int(period.total_seconds())`, the period given in
      microseconds; `int` truncates toward zero. */
  function PeriodSeconds(periodMicros: Option<int>): (r: Option<int>)
    ensures r.None? <==> periodMicros.None?
    ensures r.Some? && periodMicros.value >= 0 ==>
      r.value * 1000000 <= periodMicros.value < (r.value + 1) * 1000000
    ensures r.Some? && periodMicros.value < 0 ==>
      (r.value - 1) * 1000000 < periodMicros.value <= r.value * 1000000
  {
    match periodMicros
    case None => None
    case Some(us) => Some(if us >= 0 then us / 1000000 else -((-us) / 1000000))
  }
}
