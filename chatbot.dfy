/**
 * The query normaliser of the chatbot (`transform_query_with_time`) and the
 * classification of an input line in its read loop.
 *
 * The normaliser looks for three Indonesian relative-time phrases in the
 * lower-cased query, in the fixed order "hari ini" (today), "minggu ini"
 * (this week), "bulan ini" (this month).  Only the first phrase found is
 * acted on: every exact-case occurrence of it in the ORIGINAL query is
 * replaced by an absolute date phrase built from the reference date.  The
 * clock is not read here: the reference date is a parameter.
 */
module Chatbot {
  import opened Wrappers
  import opened Strings
  import opened Calendar
  import opened DateFormat

  const Today := "hari ini"
  const ThisWeek := "minggu ini"
  const ThisMonth := "bulan ini"

  /** Python raises `OverflowError` when the Sunday of the week lies past 9999-12-31. */
  datatype TransformError = DateOutOfRange

  /** "pada tanggal DD Month YYYY". */
  function TodayPhrase(now: Date): string
    requires Valid(now)
  {
    "pada tanggal " + FormatDate(now)
  }

  /** "antara <Monday> dan <Sunday>". */
  function WeekPhrase(w: Week): string
    requires Valid(w.start) && Valid(w.end)
  {
    "antara " + FormatDate(w.start) + " dan " + FormatDate(w.end)
  }

  /** "pada bulan Month YYYY". */
  function MonthPhrase(now: Date): string
    requires Valid(now)
  {
    "pada bulan " + FormatMonthYear(now)
  }

  /** `transform_query_with_time(query)` with `datetime.now()` given as `now`. */
  function TransformQuery(query: string, now: Date): (r: Result<string, TransformError>)
    requires Valid(now)
    ensures r.Failure? ==> Contains(Lower(query), ThisWeek) && WeekBounds(now).None?
    ensures (!Contains(Lower(query), Today) && !Contains(Lower(query), ThisWeek)
               && !Contains(Lower(query), ThisMonth)) ==> r == Success(query)
  {
    var lowered := Lower(query);
    if Contains(lowered, Today) then
      Success(ReplaceAll(query, Today, TodayPhrase(now)))
    else if Contains(lowered, ThisWeek) then
      match WeekBounds(now)
      case None => Failure(DateOutOfRange)
      case Some(w) => Success(ReplaceAll(query, ThisWeek, WeekPhrase(w)))
    else if Contains(lowered, ThisMonth) then
      Success(ReplaceAll(query, ThisMonth, MonthPhrase(now)))
    else
      Success(query)
  }

  /** The week phrase reads back as its two dates: after "antara " comes the
      Monday's text, then " dan ", then the Sunday's text. */
  lemma WeekPhraseRoundTrip(w: Week)
    requires Valid(w.start) && Valid(w.end)
    ensures var n := |FormatDate(w.start)|;
            && |WeekPhrase(w)| == 12 + n + |FormatDate(w.end)|
            && WeekPhrase(w)[..7] == "antara "
            && ParseDate(WeekPhrase(w)[7..7 + n]) == Some(w.start)
            && WeekPhrase(w)[7 + n..12 + n] == " dan "
            && ParseDate(WeekPhrase(w)[12 + n..]) == Some(w.end)
  {
    var a, b := FormatDate(w.start), FormatDate(w.end);
    var phrase := WeekPhrase(w);
    assert phrase == "antara " + a + " dan " + b;
    assert phrase[7..7 + |a|] == a;
    assert phrase[12 + |a|..] == b;
    FormatDateRoundTrip(w.start);
    FormatDateRoundTrip(w.end);
  }

  // ---------------------------------------------------------------------
  // The three rules

  /** "hari ini" wins over the other phrases.  Every exact-case occurrence is
      replaced, the text around the occurrences is kept verbatim (it joins
      back to the query), and the inserted date reads back as `now`. */
  lemma TodayRule(query: string, now: Date)
    requires Valid(now) && Contains(Lower(query), Today)
    ensures var pieces := Split(query, Today);
            && TransformQuery(query, now) == Success(Join(pieces, TodayPhrase(now)))
            && Join(pieces, Today) == query
            && (forall k :: 0 <= k < |pieces| ==> !Contains(pieces[k], Today))
    ensures TodayPhrase(now)[..13] == "pada tanggal "
    ensures ParseDate(TodayPhrase(now)[13..]) == Some(now)
    ensures forall s :: ParseDate(s) == Some(now) ==> s == TodayPhrase(now)[13..]
  {
    ReplaceIsJoinOfSplit(query, Today, TodayPhrase(now));
    SplitJoin(query, Today);
    SplitPiecesAvoid(query, Today);
    assert TodayPhrase(now)[13..] == FormatDate(now);
    FormatDateRoundTrip(now);
    forall s | ParseDate(s) == Some(now)
      ensures s == TodayPhrase(now)[13..]
    {
      ParseDateExact(s, now);
    }
  }

  /** "minggu ini", when "hari ini" is absent: every exact-case occurrence is
      replaced by the Monday-to-Sunday range around `now`.  The rule fails
      only when that Sunday lies past 9999-12-31. */
  lemma WeekRule(query: string, now: Date)
    requires Valid(now) && !Contains(Lower(query), Today) && Contains(Lower(query), ThisWeek)
    ensures TransformQuery(query, now).Success? <==> ToOrdinal(now) + (Sunday - Weekday(now)) <= MaxOrdinal
    ensures TransformQuery(query, now).Success? ==>
              var w := WeekBounds(now).value;
              var pieces := Split(query, ThisWeek);
              && TransformQuery(query, now) == Success(Join(pieces, WeekPhrase(w)))
              && Join(pieces, ThisWeek) == query
              && (forall k :: 0 <= k < |pieces| ==> !Contains(pieces[k], ThisWeek))
              && Weekday(w.start) == Monday && Weekday(w.end) == Sunday
              && OnOrBefore(w.start, now) && OnOrBefore(now, w.end)
              && ToOrdinal(w.end) == ToOrdinal(w.start) + 6
  {
    WeekBoundsSpec(now);
    if WeekBounds(now).Some? {
      var w := WeekBounds(now).value;
      ReplaceIsJoinOfSplit(query, ThisWeek, WeekPhrase(w));
      SplitJoin(query, ThisWeek);
      SplitPiecesAvoid(query, ThisWeek);
    }
  }

  /** "bulan ini", when neither earlier phrase is present: every exact-case
      occurrence is replaced by the month and year of `now`, which the
      inserted text determines, with no day in it. */
  lemma MonthRule(query: string, now: Date)
    requires Valid(now) && !Contains(Lower(query), Today) && !Contains(Lower(query), ThisWeek)
    requires Contains(Lower(query), ThisMonth)
    ensures var pieces := Split(query, ThisMonth);
            && TransformQuery(query, now) == Success(Join(pieces, MonthPhrase(now)))
            && Join(pieces, ThisMonth) == query
            && (forall k :: 0 <= k < |pieces| ==> !Contains(pieces[k], ThisMonth))
    ensures MonthPhrase(now)[..11] == "pada bulan "
    ensures ParseMonthYear(MonthPhrase(now)[11..]) == Some((now.year, now.month))
    ensures forall s :: ParseMonthYear(s) == Some((now.year, now.month)) ==> s == MonthPhrase(now)[11..]
  {
    ReplaceIsJoinOfSplit(query, ThisMonth, MonthPhrase(now));
    SplitJoin(query, ThisMonth);
    SplitPiecesAvoid(query, ThisMonth);
    assert MonthPhrase(now)[11..] == FormatMonthYear(now);
    FormatMonthYearRoundTrip(now);
    forall s | ParseMonthYear(s) == Some((now.year, now.month))
      ensures s == MonthPhrase(now)[11..]
    {
      ParseMonthYearExact(s, now.year, now.month);
    }
  }

  /** Detection is case-insensitive but replacement is not: when the chosen
      phrase occurs only in another case, the query comes back unchanged and
      later phrases are not looked at.  For "minggu ini" the week is still
      computed first, so its overflow still fails. */
  lemma OtherCaseUnchanged(query: string, now: Date)
    requires Valid(now)
    ensures Contains(Lower(query), Today) && !Contains(query, Today) ==>
              TransformQuery(query, now) == Success(query)
    ensures !Contains(Lower(query), Today) && Contains(Lower(query), ThisWeek)
              && !Contains(query, ThisWeek) ==>
              TransformQuery(query, now) ==
                (if WeekBounds(now).Some? then Success(query) else Failure(DateOutOfRange))
    ensures !Contains(Lower(query), Today) && !Contains(Lower(query), ThisWeek)
              && Contains(Lower(query), ThisMonth) && !Contains(query, ThisMonth) ==>
              TransformQuery(query, now) == Success(query)
  {
    if !Contains(query, Today) {
      ReplaceAbsent(query, Today, TodayPhrase(now));
    }
    if !Contains(query, ThisWeek) && WeekBounds(now).Some? {
      ReplaceAbsent(query, ThisWeek, WeekPhrase(WeekBounds(now).value));
    }
    if !Contains(query, ThisMonth) {
      ReplaceAbsent(query, ThisMonth, MonthPhrase(now));
    }
  }

  /** A phrase written in lower case in the query is always detected: a
      query holding "hari ini" verbatim takes the first rule and always comes
      back longer than it went in. */
  lemma ExactPhraseDetected(query: string, now: Date)
    requires Valid(now) && Contains(query, Today)
    ensures TransformQuery(query, now) == Success(ReplaceAll(query, Today, TodayPhrase(now)))
    ensures |TransformQuery(query, now).value| > |query|
  {
    LowerKeepsLowercaseMatch(query, Today);
    ReplaceGrows(query, Today, TodayPhrase(now));
  }

  // ---------------------------------------------------------------------
  // The read loop's line classification

  datatype LineAction = Exit | Skip | Ask

  /** `line.lower() in ["exit", "quit"]` ends the loop; an empty line is
      ignored; anything else is sent as a question. */
  function ClassifyLine(line: string): LineAction
  {
    var lowered := Lower(line);
    if lowered == "exit" || lowered == "quit" then Exit
    else if line == "" then Skip
    else Ask
  }

  /** The classification does not depend on letter case. */
  lemma ClassifyIgnoresCase(line: string)
    ensures ClassifyLine(Lower(line)) == ClassifyLine(line)
  {
    LowerIdempotent(line);
  }

  /** Only a line of exactly four characters can end the loop (no trimming of
      blanks), and only the empty line is skipped. */
  lemma ClassifyShape(line: string)
    ensures ClassifyLine(line) == Exit ==> |line| == 4
    ensures ClassifyLine(line) == Skip <==> line == []
  {
  }
}
