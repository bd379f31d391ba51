/**
 * Worked instances of the normaliser and of the line classification,
 * derived from the general lemmas.
 *
 * The query examples take their inputs as parameters fixed by `requires`
 * (`q == "..."`, `now == Date(...)`) rather than writing the literals in the
 * `ensures`: that way the verifier does not unfold the literal strings and
 * dates into the recursive definitions, which keeps each example cheap and
 * stable to verify.
 */
module Examples {
  import opened Wrappers
  import opened Strings
  import opened Calendar
  import opened DateFormat
  import opened Chatbot

  /** Replacing the phrase at the end of "<prefix><phrase>". */
  lemma ReplaceTrailing(s: string, prefix: string, pat: string, rep: string)
    requires s == prefix + pat
    requires |pat| > 0 && forall i :: 0 <= i < |prefix| ==> prefix[i] != pat[0]
    ensures ReplaceAll(s, pat, rep) == prefix + rep
  {
    ReplaceAllSkip(prefix, pat, pat, rep);
    assert IsPrefix(pat, pat);
    assert pat[|pat|..] == [];
  }

  // ---------------------------------------------------------------------
  // Weeks

  /** Wednesday 13 March 2024 lies in the week of Monday 11 to Sunday 17 March. */
  lemma WeekOfWednesday(d: Date)
    requires d == Date(2024, 3, 13)
    ensures WeekBounds(d) == Some(Week(Date(2024, 3, 11), Date(2024, 3, 17)))
  {
    assert Weekday(d) == 2;
    assert WeekdayJump(2, Monday, -1) == -2;
    assert WeekdayJump(2, Sunday, 1) == 4;
    assert AddDays(Date(2024, 3, 12), -1) == Some(Date(2024, 3, 11));
    assert AddDays(d, -2) == Some(Date(2024, 3, 11));
    assert AddDays(Date(2024, 3, 14), 3) == Some(Date(2024, 3, 17));
    assert AddDays(d, 4) == Some(Date(2024, 3, 17));
  }

  /** A Sunday ends its own week, which starts six days earlier. */
  lemma WeekOfSunday(d: Date)
    requires d == Date(2024, 3, 17)
    ensures WeekBounds(d) == Some(Week(Date(2024, 3, 11), Date(2024, 3, 17)))
  {
    assert Weekday(d) == 6;
    assert WeekdayJump(6, Monday, -1) == -6;
    assert WeekdayJump(6, Sunday, 1) == 0;
    assert AddDays(Date(2024, 3, 13), -2) == Some(Date(2024, 3, 11));
    assert AddDays(Date(2024, 3, 15), -4) == Some(Date(2024, 3, 11));
    assert AddDays(d, -6) == Some(Date(2024, 3, 11));
  }

  /** New Year's Day 2025 is a Wednesday: its week starts in 2024. */
  lemma WeekAcrossYears(d: Date)
    requires d == Date(2025, 1, 1)
    ensures WeekBounds(d) == Some(Week(Date(2024, 12, 30), Date(2025, 1, 5)))
  {
    assert Weekday(d) == 2;
    assert WeekdayJump(2, Monday, -1) == -2;
    assert WeekdayJump(2, Sunday, 1) == 4;
    assert AddDays(Date(2024, 12, 31), -1) == Some(Date(2024, 12, 30));
    assert AddDays(d, -2) == Some(Date(2024, 12, 30));
    assert AddDays(Date(2025, 1, 2), 3) == Some(Date(2025, 1, 5));
    assert AddDays(d, 4) == Some(Date(2025, 1, 5));
  }

  /** 31 December 9999 is a Friday; its Sunday is not representable. */
  lemma WeekPastMaxYear(d: Date)
    requires d == Date(9999, 12, 31)
    ensures WeekBounds(d) == None
  {
    assert Weekday(d) == 4;
    assert WeekdayJump(4, Sunday, 1) == 2;
    assert NextDay(d) == None;
    assert AddDays(d, 2) == None;
  }

  // ---------------------------------------------------------------------
  // Whole queries

  /** No character of `a + b` starts `pat`, given it for `a` and `b` apart. */
  lemma FirstCharAbsentConcat(a: string, b: string, pat: string)
    requires |pat| > 0
    requires forall i :: 0 <= i < |a| ==> a[i] != pat[0]
    requires forall i :: 0 <= i < |b| ==> b[i] != pat[0]
    ensures !Contains(a + b, pat)
  {
    FirstCharAbsent(a + b, pat);
  }

  /** `a + b` has no upper-case letter, given it for `a` and `b` apart. */
  lemma LowerConcat(a: string, b: string)
    requires forall i :: 0 <= i < |a| ==> !('A' <= a[i] <= 'Z')
    requires forall i :: 0 <= i < |b| ==> !('A' <= b[i] <= 'Z')
    ensures Lower(a + b) == a + b
  {
    LowerOfLowercase(a + b);
  }

  /** A query of lower-case text ending in "hari ini". */
  lemma TodayAtEnd(q: string, prefix: string, now: Date)
    requires Valid(now) && q == prefix + Today
    requires forall i :: 0 <= i < |prefix| ==> prefix[i] != Today[0]
    ensures TransformQuery(q, now) == Success(prefix + TodayPhrase(now))
  {
    assert OccursAt(q, Today, |prefix|);
    OccursAtContains(q, Today, |prefix|);
    ExactPhraseDetected(q, now);
    ReplaceTrailing(q, prefix, Today, TodayPhrase(now));
  }

  /** A query of lower-case text ending in "minggu ini", with no "hari ini". */
  lemma WeekAtEnd(q: string, prefix: string, now: Date)
    requires Valid(now) && q == prefix + ThisWeek && WeekBounds(now).Some?
    requires forall i :: 0 <= i < |prefix| ==> prefix[i] != Today[0] && prefix[i] != ThisWeek[0]
    requires forall i :: 0 <= i < |prefix| ==> !('A' <= prefix[i] <= 'Z')
    ensures TransformQuery(q, now) == Success(prefix + WeekPhrase(WeekBounds(now).value))
  {
    LowerConcat(prefix, ThisWeek);
    FirstCharAbsentConcat(prefix, ThisWeek, Today);
    assert OccursAt(q, ThisWeek, |prefix|);
    OccursAtContains(q, ThisWeek, |prefix|);
    WeekRule(q, now);
    ReplaceTrailing(q, prefix, ThisWeek, WeekPhrase(WeekBounds(now).value));
    ReplaceIsJoinOfSplit(q, ThisWeek, WeekPhrase(WeekBounds(now).value));
  }

  /** A query of lower-case text ending in "bulan ini", with neither earlier phrase. */
  lemma MonthAtEnd(q: string, prefix: string, now: Date)
    requires Valid(now) && q == prefix + ThisMonth
    requires forall i :: 0 <= i < |prefix| ==>
               prefix[i] != Today[0] && prefix[i] != ThisWeek[0] && prefix[i] != ThisMonth[0]
    requires forall i :: 0 <= i < |prefix| ==> !('A' <= prefix[i] <= 'Z')
    ensures TransformQuery(q, now) == Success(prefix + MonthPhrase(now))
  {
    LowerConcat(prefix, ThisMonth);
    FirstCharAbsentConcat(prefix, ThisMonth, Today);
    FirstCharAbsentConcat(prefix, ThisMonth, ThisWeek);
    assert OccursAt(q, ThisMonth, |prefix|);
    OccursAtContains(q, ThisMonth, |prefix|);
    MonthRule(q, now);
    ReplaceTrailing(q, prefix, ThisMonth, MonthPhrase(now));
    ReplaceIsJoinOfSplit(q, ThisMonth, MonthPhrase(now));
  }

  /** 15 March 2024: "hari ini" becomes "pada tanggal 15 March 2024". */
  lemma TodayExample(q: string, now: Date)
    requires q == "berita hari ini" && now == Date(2024, 3, 15)
    ensures TransformQuery(q, now) == Success("berita " + "pada tanggal 15 March 2024")
  {
    TodayAtEnd(q, "berita ", now);
    assert TodayPhrase(now) == "pada tanggal 15 March 2024";
  }

  lemma WeekPhraseExample(w: Week)
    requires w == Week(Date(2024, 12, 30), Date(2025, 1, 5))
    ensures WeekPhrase(w) == "antara 30 December 2024 dan 05 January 2025"
  {
  }

  /** The week phrase for 1 January 2025 spans the turn of the year. */
  lemma WeekQueryExample(q: string, now: Date)
    requires q == "rapat minggu ini" && now == Date(2025, 1, 1)
    ensures TransformQuery(q, now)
              == Success("rapat " + "antara 30 December 2024 dan 05 January 2025")
  {
    WeekAcrossYears(now);
    WeekAtEnd(q, "rapat ", now);
    WeekPhraseExample(WeekBounds(now).value);
  }

  lemma OverflowQueryLower(q: string)
    requires q == "minggu ini"
    ensures Lower(q) == q
  {
    LowerOfLowercase(q);
  }

  lemma OverflowQueryNoToday(q: string)
    requires q == "minggu ini"
    ensures !Contains(q, Today)
  {
    FirstCharAbsent(q, Today);
  }

  /** The week phrase cannot be built in the last days of 9999. */
  lemma WeekOverflowExample(q: string, now: Date)
    requires q == "minggu ini" && now == Date(9999, 12, 31)
    ensures TransformQuery(q, now) == Failure(DateOutOfRange)
  {
    WeekPastMaxYear(now);
    OverflowQueryLower(q);
    OverflowQueryNoToday(q);
    assert IsPrefix(ThisWeek, q);
  }

  /** "bulan ini" becomes the month and year only. */
  lemma MonthExample(q: string, now: Date)
    requires q == "laporan bulan ini" && now == Date(2024, 3, 15)
    ensures TransformQuery(q, now) == Success("laporan " + "pada bulan March 2024")
  {
    MonthAtEnd(q, "laporan ", now);
    assert MonthPhrase(now) == "pada bulan March 2024";
  }

  lemma OtherCaseLowered(q: string)
    requires q == "HARI INI minggu ini"
    ensures Lower(q) == "hari ini minggu ini"
  {
  }

  /** "HARI INI" is detected and selects the first rule, which replaces
      nothing; the lower-case "minggu ini" after it is left alone. */
  lemma OtherCaseExample(q: string, now: Date)
    requires q == "HARI INI minggu ini" && now == Date(2024, 3, 15)
    ensures TransformQuery(q, now) == Success(q)
  {
    OtherCaseLowered(q);
    assert OccursAt(Lower(q), Today, 0);
    OccursAtContains(Lower(q), Today, 0);
    FirstCharAbsent(q, Today);
    OtherCaseUnchanged(q, now);
  }

  lemma ClassifyExamples()
    ensures ClassifyLine("EXIT") == Exit && ClassifyLine("Quit") == Exit
    ensures ClassifyLine(" exit") == Ask && ClassifyLine("exit ") == Ask
    ensures ClassifyLine("") == Skip
    ensures ClassifyLine("apa kabar") == Ask
  {
  }
}
