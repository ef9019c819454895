/**
 * The two response parsers of the session. Each takes one trimmed,
 * non-empty response and decides what the session reports: an
 * informational message, a conductivity reading or an error.
 */
module Responses {
  import opened Wrappers
  import opened Sequences
  import opened Text
  import opened Numbers

  /** One conductivity measurement. */
  datatype CondReading = CondReading(value: real, units: string)

  /** What the session reports, one constructor per outgoing signal. */
  datatype Event =
    | MessageReceived(text: string)
    | MeasurementReceived(reading: CondReading)
    | ErrorOccurred(message: string)

  /** QString::toDouble without a success flag: text that does not convert counts as 0. */
  function NumberOrZero(s: string): (v: real)
    ensures ParseNumber(s).Some? ==> v == ParseNumber(s).value
    ensures ParseNumber(s).None? ==> v == 0.0
  {
    ParseNumber(s).GetOr(0.0)
  }

  /**
   * The Thermo Orion EC112 parser. A clock acknowledgement is passed on
   * as it is; a measurement line needs at least 12 comma-separated
   * fields, that is at least 11 commas, and otherwise is an error; any
   * other response is passed on as unknown. Every response yields exactly
   * one event.
   */
  function ParseOrion(response: string): (e: Event)
    ensures e == MessageReceived(response) <==> Contains(response, "RTC updated")
    ensures e.MeasurementReceived? <==>
      !Contains(response, "RTC updated") && Contains(response, "Conductivity") && multiset(response)[','] >= 11
    ensures e.ErrorOccurred? <==>
      !Contains(response, "RTC updated") && Contains(response, "Conductivity") && multiset(response)[','] < 11
    ensures e.ErrorOccurred? ==> e.message == "Malformed GETMEAS response"
    ensures e == MessageReceived("Unknown response: " + response) <==>
      !Contains(response, "RTC updated") && !Contains(response, "Conductivity")
  {
    if Contains(response, "RTC updated") then MessageReceived(response)
    else if Contains(response, "Conductivity") then
      var fields := Split(response, ',');
      if |fields| >= 12 then
        MeasurementReceived(CondReading(NumberOrZero(fields[9]), Trimmed(fields[10])))
      else ErrorOccurred("Malformed GETMEAS response")
    else
      assert |"Unknown response: " + response| != |response|;
      MessageReceived("Unknown response: " + response)
  }

  /**
   * A measurement line of at least 12 fields reads its value from field 9
   * (0 when that field is not a number) and its units from field 10,
   * trimmed.
   */
  lemma OrionReadingFromFields(fields: seq<string>)
    requires |fields| >= 12 && forall i :: 0 <= i < |fields| ==> ',' !in fields[i]
    requires !Contains(Join(fields, ','), "RTC updated") && Contains(Join(fields, ','), "Conductivity")
    ensures ParseOrion(Join(fields, ',')) ==
      MeasurementReceived(CondReading(NumberOrZero(fields[9]), Trimmed(fields[10])))
  {
    SplitJoin(fields, ',');
  }

  /** A measurement line of fewer than 12 fields is an error and gives no reading. */
  lemma OrionMalformedFields(fields: seq<string>)
    requires 1 <= |fields| < 12 && forall i :: 0 <= i < |fields| ==> ',' !in fields[i]
    requires !Contains(Join(fields, ','), "RTC updated") && Contains(Join(fields, ','), "Conductivity")
    ensures ParseOrion(Join(fields, ',')) == ErrorOccurred("Malformed GETMEAS response")
  {
    SplitJoin(fields, ',');
  }

  /** The part of an EPU357 response that holds the value and the units. */
  function ValueLine(response: string): (line: string)
    ensures |line| <= |response|
    ensures Trimmed(response) == response ==> Trimmed(line) == line
  {
    if StartsWith(response, "EPU357 Reading ") then
      TrimmedIdempotent(response[15..]);
      Trimmed(response[15..])
    else response
  }

  /**
   * The eDAQ EPU357 parser. The prompt yields nothing; the sampling and
   * range notices are passed on; otherwise the words of the value line
   * decide, as in ReadWords. It never reports an error, units are always
   * one non-empty word, and every message quotes the whole response at
   * its end.
   */
  function ParseEPU357(response: string): (e: Option<Event>)
    ensures e.None? <==> response == "EPU357>"
    ensures e.Some? ==> !e.value.ErrorOccurred?
    ensures response != "EPU357>" && (StartsWith(response, "EPU357 Sampling") || StartsWith(response, "EPU357 Range"))
      ==> e == Some(MessageReceived(response))
    ensures e.Some? && e.value.MeasurementReceived? ==>
      e.value.reading.units != [] && ' ' !in e.value.reading.units
    ensures e.Some? ==> Quotes(e.value, response)
  {
    if response == "EPU357>" then None
    else if StartsWith(response, "EPU357 Sampling") || StartsWith(response, "EPU357 Range") then
      Some(MessageReceived(response))
    else Some(ReadWords(response, SplitSkipEmpty(ValueLine(response), ' ')))
  }

  /** A message that ends with the whole response, so that the response can be read back from it. */
  predicate Quotes(e: Event, response: string) {
    e.MessageReceived? ==> |response| <= |e.text| && e.text[|e.text| - |response|..] == response
  }

  /**
   * The words of an EPU357 value line: a number and a unit make a
   * reading, a lone number is a reading in mS, and anything else is passed
   * on as a message quoting the response.
   */
  function ReadWords(response: string, words: seq<string>): (e: Event)
    requires forall i :: 0 <= i < |words| ==> words[i] != [] && ' ' !in words[i]
    ensures !e.ErrorOccurred?
    ensures e.MeasurementReceived? ==> e.reading.units != [] && ' ' !in e.reading.units
    ensures Quotes(e, response)
    ensures e.MeasurementReceived? <==> |words| >= 1 && ParseNumber(words[0]).Some?
    ensures e.MeasurementReceived? ==>
      e.reading == CondReading(ParseNumber(words[0]).value, if |words| >= 2 then words[1] else "mS")
    ensures e.MessageReceived? ==>
      e.text == (if |words| >= 2 then "Could not parse value from: " else "EPU357: ") + response
  {
    if |words| >= 2 then
      match ParseNumber(words[0])
      case Some(v) => MeasurementReceived(CondReading(v, words[1]))
      case None => MessageReceived("Could not parse value from: " + response)
    else if |words| == 1 then
      match ParseNumber(words[0])
      case Some(v) => MeasurementReceived(CondReading(v, "mS"))
      case None => MessageReceived("EPU357: " + response)
    else MessageReceived("EPU357: " + response)
  }

  /**
   * A response the parser splits into words as it stands: neither the
   * prompt, nor a sampling or range notice, nor a line led by the
   * "EPU357 Reading " banner.
   */
  predicate ByOwnWords(r: string) {
    r != "EPU357>" && !StartsWith(r, "EPU357 Sampling") && !StartsWith(r, "EPU357 Range")
    && !StartsWith(r, "EPU357 Reading ")
  }

  /** Such a response is decided by its own words. */
  lemma EPU357ByWords(r: string)
    requires ByOwnWords(r)
    ensures ParseEPU357(r) == Some(ReadWords(r, SplitSkipEmpty(r, ' ')))
  {
  }

  /** `r` is `parts` joined by single spaces, and no part holds a space; parts may be empty. */
  predicate JoinedBySpaces(r: string, parts: seq<string>) {
    |parts| >= 1 && (forall i :: 0 <= i < |parts| ==> ' ' !in parts[i]) && r == Join(parts, ' ')
  }

  /**
   * The words of a response spelled as `parts` are its non-empty parts,
   * in order, however many spaces stand between them or around them.
   */
  lemma EPU357Words(r: string, parts: seq<string>)
    requires JoinedBySpaces(r, parts) && ByOwnWords(r)
    ensures ParseEPU357(r) == Some(ReadWords(r, NonEmpty(parts)))
  {
    EPU357ByWords(r);
    SplitSkipEmptyOfJoin(parts, ' ');
  }

  /**
   * "12.398184 mS", "12.3  mS" or "12.3 mS extra": two or more words of
   * which the first is a number make a reading of that number in the
   * unit of the second word.
   */
  lemma EPU357Reading(r: string, parts: seq<string>, x: real)
    requires JoinedBySpaces(r, parts) && ByOwnWords(r)
    requires |NonEmpty(parts)| >= 2 && ParseNumber(NonEmpty(parts)[0]) == Some(x)
    ensures ParseEPU357(r) == Some(MeasurementReceived(CondReading(x, NonEmpty(parts)[1])))
  {
    EPU357Words(r, parts);
  }

  /** Two or more words whose first is not a number, as in "Error 5", are passed on as a message. */
  lemma EPU357UnparseableValue(r: string, parts: seq<string>)
    requires JoinedBySpaces(r, parts) && ByOwnWords(r)
    requires |NonEmpty(parts)| >= 2 && ParseNumber(NonEmpty(parts)[0]) == None
    ensures ParseEPU357(r) == Some(MessageReceived("Could not parse value from: " + r))
  {
    EPU357Words(r, parts);
  }

  /** A lone number is a reading in the default unit, mS. */
  lemma EPU357LoneValue(r: string, parts: seq<string>, x: real)
    requires JoinedBySpaces(r, parts) && ByOwnWords(r)
    requires |NonEmpty(parts)| == 1 && ParseNumber(NonEmpty(parts)[0]) == Some(x)
    ensures ParseEPU357(r) == Some(MeasurementReceived(CondReading(x, "mS")))
  {
    EPU357Words(r, parts);
  }

  /** A lone word that is not a number is passed on with the meter's name. */
  lemma EPU357UnknownWord(r: string, parts: seq<string>)
    requires JoinedBySpaces(r, parts) && ByOwnWords(r)
    requires |NonEmpty(parts)| == 1 && ParseNumber(NonEmpty(parts)[0]) == None
    ensures ParseEPU357(r) == Some(MessageReceived("EPU357: " + r))
  {
    EPU357Words(r, parts);
  }

  /** A response without any word is passed on with the meter's name. */
  lemma EPU357NoWords(r: string, parts: seq<string>)
    requires JoinedBySpaces(r, parts) && ByOwnWords(r)
    requires NonEmpty(parts) == []
    ensures ParseEPU357(r) == Some(MessageReceived("EPU357: " + r))
  {
    EPU357Words(r, parts);
  }

  /** After the banner "EPU357 Reading ", the words of the trimmed remainder decide. */
  lemma EPU357ReadingBanner(w: string)
    ensures ParseEPU357("EPU357 Reading " + w)
         == Some(ReadWords("EPU357 Reading " + w, SplitSkipEmpty(Trimmed(w), ' ')))
  {
    var r := "EPU357 Reading " + w;
    Differs(r, "EPU357 Sampling", 7);
    Differs(r, "EPU357 Range", 8);
    assert r[..15] == "EPU357 Reading ";
    assert |r| != |"EPU357>"|;
    assert r[15..] == w;
  }

  /** Text that differs from `p` at position `i` neither is nor starts with `p`. */
  lemma Differs(r: string, p: string, i: nat)
    requires i < |r| && i < |p| && r[i] != p[i]
    ensures r != p && !StartsWith(r, p)
  {
    if |p| <= |r| {
      assert r[..|p|][i] == r[i];
    }
  }

  /** The words after the banner are the non-empty parts of the trimmed remainder, in order. */
  lemma EPU357PrefixedWords(w: string, parts: seq<string>)
    requires JoinedBySpaces(Trimmed(w), parts)
    ensures ParseEPU357("EPU357 Reading " + w) == Some(ReadWords("EPU357 Reading " + w, NonEmpty(parts)))
  {
    EPU357ReadingBanner(w);
    SplitSkipEmptyOfJoin(parts, ' ');
  }

  /**
   * "EPU357 Reading 12.399171 mS": the banner, and any whitespace after
   * it, is stripped, and the reading is the one the remainder gives alone.
   */
  lemma EPU357PrefixedReading(w: string, parts: seq<string>, x: real)
    requires JoinedBySpaces(Trimmed(w), parts)
    requires |NonEmpty(parts)| >= 2 && ParseNumber(NonEmpty(parts)[0]) == Some(x)
    ensures ParseEPU357("EPU357 Reading " + w) == Some(MeasurementReceived(CondReading(x, NonEmpty(parts)[1])))
    ensures ByOwnWords(Trimmed(w)) ==> ParseEPU357("EPU357 Reading " + w) == ParseEPU357(Trimmed(w))
  {
    EPU357PrefixedWords(w, parts);
    if ByOwnWords(Trimmed(w)) {
      EPU357Reading(Trimmed(w), parts, x);
    }
  }

  /**
   * A trimmed, non-empty response always leaves at least one word on its
   * value line, so the parser's branch for a line without words is never
   * taken for a response handed over by the read handler.
   */
  lemma EPU357ValueLineHasWord(r: string)
    requires r != [] && Trimmed(r) == r
    ensures |SplitSkipEmpty(ValueLine(r), ' ')| >= 1
  {
    TrimmedEnds(r);
    LineHasWord(r);
  }

  lemma LineHasWord(r: string)
    requires r != [] && !IsSpace(r[0]) && !IsSpace(r[|r| - 1])
    ensures |SplitSkipEmpty(ValueLine(r), ' ')| >= 1
  {
    var line := ValueLine(r);
    if StartsWith(r, "EPU357 Reading ") {
      BannerRestHasWord(r);
      WordIn(line, line[|line| - 1]);
    } else {
      WordIn(line, r[0]);
    }
  }

  lemma BannerRestHasWord(r: string)
    requires r != [] && !IsSpace(r[|r| - 1]) && StartsWith(r, "EPU357 Reading ")
    ensures var line := Trimmed(r[15..]); line != [] && !IsSpace(line[|line| - 1])
  {
    assert |r| > 15 by {
      assert r[14] == ' ';
    }
    var rest := r[15..];
    assert rest[|rest| - 1] == r[|r| - 1];
    TrimmedKeepsLast(rest);
  }

  /** A line holding a character other than a space has at least one word. */
  lemma WordIn(line: string, c: char)
    requires c in line && c != ' '
    ensures |SplitSkipEmpty(line, ' ')| >= 1
  {
    assert multiset(line)[' ' := 0][c] > 0;
  }

}
