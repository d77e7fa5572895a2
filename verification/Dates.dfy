/** Calendar dates as they are spelled, and what moving a dated line forward means: said without
    the functions that compute it. */
module Dates {
  import opened Markdown
  import opened Spacing

  predicate IsDigit(c: char) {
    '0' <= c <= '9'
  }

  function Value(c: char): nat
    requires IsDigit(c)
  {
    c as nat - '0' as nat
  }

  predicate Leap(year: nat) {
    year % 4 == 0 && (year % 100 != 0 || year % 400 == 0)
  }

  /** A day that the calendar has. */
  predicate Calendar(year: nat, month: nat, day: nat) {
    && year >= 1 && 1 <= month <= 12 && 1 <= day <= 31
    && (month in {4, 6, 9, 11} ==> day <= 30)
    && (month == 2 ==> day <= 29 && (day == 29 ==> Leap(year)))
  }

  /** `s` is YYYY-MM-DD for this day. */
  predicate Spells(s: string, year: nat, month: nat, day: nat) {
    && |s| == 10 && s[4] == '-' && s[7] == '-'
    && (forall i :: 0 <= i < 10 && i != 4 && i != 7 ==> IsDigit(s[i]))
    && year == 1000 * Value(s[0]) + 100 * Value(s[1]) + 10 * Value(s[2]) + Value(s[3])
    && month == 10 * Value(s[5]) + Value(s[6]) && day == 10 * Value(s[8]) + Value(s[9])
    && Calendar(year, month, day)
  }

  ghost predicate SpellsADate(s: string) {
    exists y: nat, m: nat, d: nat :: Spells(s, y, m, d)
  }

  predicate EarlierDay(y: nat, m: nat, d: nat, y': nat, m': nat, d': nat) {
    y < y' || (y == y' && (m < m' || (m == m' && d < d')))
  }

  /** Both are dates, and the first is the earlier one. */
  ghost predicate EarlierDate(a: string, b: string) {
    exists y: nat, m: nat, d: nat, y': nat, m': nat, d': nat :: Spells(a, y, m, d) && Spells(b, y', m', d') && EarlierDay(y, m, d, y', m', d')
  }

  /** Both are dates, and the first is the same or a later one. */
  ghost predicate NotBefore(a: string, b: string) {
    SpellsADate(a) && SpellsADate(b) && !EarlierDate(a, b)
  }

  // ---- dated lines of front matter ----

  /** The line is the field with this value, and nothing else but space. */
  ghost predicate FieldLine(line: string, field: string, value: string) {
    value != [] && (forall i :: 0 <= i < |value| ==> !IsSpace(value[i]))
    && exists a, b :: Spaces(a) && Spaces(b) && line == field + ":" + a + value + b
  }

  const DELIMITER := "---"

  /** The first delimiter after line 0. */
  predicate ClosedAt(lines: seq<string>, n: nat) {
    1 <= n < |lines| && lines[n] == DELIMITER && forall j :: 1 <= j < n ==> lines[j] != DELIMITER
  }

  /** The first line of the field before the closing delimiter. */
  ghost predicate FieldAt(lines: seq<string>, field: string, k: nat) {
    1 <= k < |lines|
    && (exists n :: k < n && ClosedAt(lines, n))
    && (exists value :: FieldLine(lines[k], field, value))
    && forall j, value :: 1 <= j < k ==> !FieldLine(lines[j], field, value)
  }

  /** A value that is no date, or an earlier one, gives way; any other stays as it is spelled. */
  ghost predicate Moved(before: string, after: string, field: string, observed: string) {
    forall value :: FieldLine(before, field, value) ==>
      after == if SpellsADate(value) && !EarlierDate(value, observed) then before else field + ": " + observed
  }

  /** No line but this one has changed. */
  predicate OnlyAt(before: seq<string>, after: seq<string>, k: nat) {
    |after| == |before| && forall j :: 0 <= j < |before| && j != k ==> after[j] == before[j]
  }
}
