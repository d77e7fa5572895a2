/** What bumping the dates of a record means: a line of the field that is no date or an earlier one
    takes the new date, and nothing else changes. */
module VerdictDates {
  import opened Outcomes
  import opened Markdown
  import opened Spacing
  import opened TableText
  import opened AcceptanceTable
  import opened Dates
  import opened VerdictLines

  // ---- dates as they are spelled ----

  lemma NumberOne(s: string)
    requires |s| == 1
    ensures Number(s) == Digit(s[0])
  {
    assert s[..0] == [];
    assert Number(s[..0]) == Some(0);
  }

  lemma NumberLast(s: string)
    requires s != []
    ensures var front, last := Number(s[..|s| - 1]), Digit(s[|s| - 1]);
      Number(s) == if front.None? || last.None? then None else Some(10 * front.value + last.value)
  {
  }

  lemma NumberTwo(s: string)
    requires |s| == 2
    ensures Number(s) == if IsDigit(s[0]) && IsDigit(s[1]) then Some(10 * Value(s[0]) + Value(s[1])) else None
  {
    hide Number;
    NumberLast(s);
    NumberOne(s[..1]);
  }

  lemma NumberFour(s: string)
    requires |s| == 4
    ensures Number(s) == if IsDigit(s[0]) && IsDigit(s[1]) && IsDigit(s[2]) && IsDigit(s[3])
      then Some(1000 * Value(s[0]) + 100 * Value(s[1]) + 10 * Value(s[2]) + Value(s[3])) else None
  {
    hide Number;
    NumberLast(s);
    NumberLast(s[..3]);
    assert s[..3][..2] == s[..2];
    NumberTwo(s[..2]);
  }

  lemma CalendarDays(y: nat, m: nat, d: nat)
    ensures Calendar(y, m, d) <==> y >= 1 && 1 <= m <= 12 && 1 <= d <= DaysIn(y, m)
  {
  }

  /** A text is a date exactly when it spells a day, and its number is that day's. */
  lemma DateSpelled(s: string, y: nat, m: nat, d: nat)
    ensures Spells(s, y, m, d) ==> AsDate(s) == Some(10000 * y + 100 * m + d)
    ensures AsDate(s).Some? ==> SpellsADate(s)
  {
    hide Number, DaysIn, Calendar, IsDigit;
    if |s| == 10 && s[4] == '-' && s[7] == '-' {
      NumberFour(s[..4]);
      NumberTwo(s[5..7]);
      NumberTwo(s[8..]);
      CalendarDays(y, m, d);
      if AsDate(s).Some? {
        var year, month, day := Number(s[..4]).value, Number(s[5..7]).value, Number(s[8..]).value;
        CalendarDays(year, month, day);
        assert Spells(s, year, month, day);
      }
    }
  }

  /** Dates compare as their days do. */
  lemma DatesCompare(a: string, b: string)
    ensures SpellsADate(a) <==> AsDate(a).Some?
    ensures EarlierDate(a, b) <==> AsDate(a).Some? && AsDate(b).Some? && AsDate(a).value < AsDate(b).value
  {
    hide AsDate, Spells;
    forall y: nat, m: nat, d: nat | Spells(a, y, m, d) ensures AsDate(a) == Some(10000 * y + 100 * m + d) { DateSpelled(a, y, m, d); }
    forall y: nat, m: nat, d: nat | Spells(b, y, m, d) ensures AsDate(b) == Some(10000 * y + 100 * m + d) { DateSpelled(b, y, m, d); }
    DateSpelled(a, 0, 0, 0);
    DateSpelled(b, 0, 0, 0);
    if AsDate(a).Some? && AsDate(b).Some? {
      var y: nat, m: nat, d: nat :| Spells(a, y, m, d);
      var y': nat, m': nat, d': nat :| Spells(b, y', m', d');
      SmallParts(a, y, m, d);
      SmallParts(b, y', m', d');
      DaysCompare(y, m, d, y', m', d');
    }
    forall y: nat, m: nat, d: nat, y': nat, m': nat, d': nat | Spells(a, y, m, d) && Spells(b, y', m', d') && EarlierDay(y, m, d, y', m', d')
      ensures AsDate(a).value < AsDate(b).value
    {
      SmallParts(a, y, m, d);
      SmallParts(b, y', m', d');
      DaysCompare(y, m, d, y', m', d');
    }
  }

  lemma SmallParts(s: string, y: nat, m: nat, d: nat)
    requires Spells(s, y, m, d)
    ensures m <= 12 && d <= 31
  {
  }

  lemma DaysCompare(y: nat, m: nat, d: nat, y': nat, m': nat, d': nat)
    requires m <= 12 && d <= 31 && m' <= 12 && d' <= 31
    ensures 10000 * y + 100 * m + d < 10000 * y' + 100 * m' + d' <==> EarlierDay(y, m, d, y', m', d')
  {
  }

  // ---- field lines ----

  lemma {:induction false} NumberIsDigits(s: string)
    requires Number(s).Some?
    ensures NoSpace(s)
  {
    if s != [] {
      NumberIsDigits(s[..|s| - 1]);
      forall i | 0 <= i < |s| ensures !IsSpace(s[i]) {
        if i < |s| - 1 { assert s[..|s| - 1][i] == s[i]; }
      }
    }
  }

  lemma DateHasNoSpace(s: string)
    requires AsDate(s).Some?
    ensures NoSpace(s) && |s| == 10
  {
    NumberIsDigits(s[..4]);
    NumberIsDigits(s[5..7]);
    NumberIsDigits(s[8..]);
    forall i | 0 <= i < 10 ensures !IsSpace(s[i]) {
      if i < 4 { assert s[..4][i] == s[i]; } else if 5 <= i < 7 { assert s[5..7][i - 5] == s[i]; }
      else if i >= 8 { assert s[8..][i - 8] == s[i]; }
    }
  }

  lemma FieldOf(field: string, value: string)
    requires value != [] && NoSpace(value)
    ensures FieldValue(field + ": " + value, field) == Some(value)
  {
    var line := field + ": " + value;
    var rest := line[|field| + 1..];
    assert line[..|field|] == field && line[|field|] == ':';
    assert rest[0] == ' ' && rest[1..] == value;
    assert TrimLeft(value) == value;
    assert TrimLeft(rest) == TrimLeft(rest[1..]);
    TrimRightKeeps(value);
  }

  /** The line a bump writes is found again, with the date just written. */
  lemma WrittenField(field: string, observed: string)
    requires AsDate(observed).Some?
    ensures FieldValue(field + ": " + observed, field) == Some(observed)
  {
    hide AsDate, FieldValue;
    DateHasNoSpace(observed);
    FieldOf(field, observed);
  }

  /** No line is both a cutoff and an updated field. */
  lemma OtherField(line: string)
    ensures FieldValue(line, UPDATED).Some? ==> FieldValue(line, CUTOFF).None?
  {
    if FieldValue(line, UPDATED).Some? { FieldStart(line, UPDATED); }
    if FieldValue(line, CUTOFF).Some? { FieldStart(line, CUTOFF); }
  }

  lemma FieldStart(line: string, field: string)
    requires FieldValue(line, field).Some? && field != []
    ensures line[0] == field[0]
  {
    assert line[..|field|][0] == line[0];
  }

  /** A line has a value for the field exactly when it is spelled like that. */
  lemma FieldExact(line: string, field: string, value: string)
    ensures FieldLine(line, field, value) <==> FieldValue(line, field) == Some(value)
  {
    hide IsSpace, TrimLeft, TrimRight;
    if FieldLine(line, field, value) {
      var a, b :| Spaces(a) && Spaces(b) && line == field + ":" + a + value + b;
      assert line[..|field|] == field && line[|field|] == ':' && line[|field| + 1..] == a + (value + b);
      TrimLeftSkips(a, value + b);
      TrimRightSkips(value, b);
    }
    if FieldValue(line, field) == Some(value) {
      var rest := line[|field| + 1..];
      var a := TrimLeftSplits(rest);
      var b := TrimRightSplits(TrimLeft(rest));
      assert rest == a + value + b;
      assert line == field + ":" + rest;
      assert line == field + ":" + a + value + b;
    }
  }

  lemma FieldSome(line: string, field: string)
    ensures FieldValue(line, field).Some? <==> exists value :: FieldLine(line, field, value)
  {
    hide FieldValue, FieldLine;
    if FieldValue(line, field).Some? { FieldExact(line, field, FieldValue(line, field).value); }
    forall value | FieldLine(line, field, value) ensures FieldValue(line, field).Some? { FieldExact(line, field, value); }
  }

  lemma ClosingExact(lines: seq<string>, n: nat)
    ensures ClosedAt(lines, n) <==> lines != [] && n == Closing(lines) < |lines|
  {
    if lines != [] {
      var f := FirstDelimiter(lines, 1);
      if ClosedAt(lines, n) { assert f <= n && n <= f; }
    }
  }

  /** The line a bump looks at. */
  lemma FieldAtExact(lines: seq<string>, field: string, k: nat)
    ensures FieldAt(lines, field, k)
      <==> lines != [] && Closing(lines) < |lines| && k == FirstField(lines, 1, Closing(lines), field) < Closing(lines)
  {
    hide FieldValue, FieldLine, FirstField, ClosedAt;
    forall n: nat ensures ClosedAt(lines, n) <==> lines != [] && n == Closing(lines) < |lines| { ClosingExact(lines, n); }
    if lines != [] && Closing(lines) < |lines| {
      ClosedParts(lines, Closing(lines));
      var f := FirstField(lines, 1, Closing(lines), field);
      forall j | 0 <= j < |lines| ensures FieldValue(lines[j], field).Some? <==> exists value :: FieldLine(lines[j], field, value) {
        FieldSome(lines[j], field);
      }
      if FieldAt(lines, field, k) {
        assert k < Closing(lines);
        assert f <= k;
        assert k <= f;
      }
    }
  }

  lemma ClosedParts(lines: seq<string>, n: nat)
    requires ClosedAt(lines, n)
    ensures 1 <= n < |lines|
  {
  }

  // ---- a bump ----

  lemma StaleExact(value: string, observed: string)
    requires AsDate(observed).Some?
    ensures Stale(value, observed) <==> !(SpellsADate(value) && !EarlierDate(value, observed))
  {
    hide AsDate, SpellsADate, EarlierDate;
    DatesCompare(value, observed);
  }

  /** The first line of the field takes the date when its own is missing or older, and nothing else
      changes; without such a line nothing changes at all. */
  lemma BumpMoves(lines: seq<string>, field: string, observed: string)
    requires AsDate(observed).Some?
    ensures var after := Bumped(lines, field, observed);
      && (forall k: nat :: FieldAt(lines, field, k) ==> OnlyAt(lines, after, k) && Moved(lines[k], after[k], field, observed))
      && ((forall k: nat :: !FieldAt(lines, field, k)) ==> after == lines)
  {
    hide FieldValue, FieldLine, FieldAt, AsDate, Stale, SpellsADate, EarlierDate;
    forall k: nat
      ensures FieldAt(lines, field, k)
        <==> lines != [] && Closing(lines) < |lines| && k == FirstField(lines, 1, Closing(lines), field) < Closing(lines)
    {
      FieldAtExact(lines, field, k);
    }
    if lines != [] && Closing(lines) < |lines| {
      var f := FirstField(lines, 1, Closing(lines), field);
      assert FieldAt(lines, field, f) <==> f < Closing(lines);
    }
    forall k: nat | FieldAt(lines, field, k)
      ensures var after := Bumped(lines, field, observed); OnlyAt(lines, after, k) && Moved(lines[k], after[k], field, observed)
    {
      forall value ensures FieldLine(lines[k], field, value) <==> FieldValue(lines[k], field) == Some(value) { FieldExact(lines[k], field, value); }
      StaleExact(FieldValue(lines[k], field).value, observed);
    }
  }

  lemma FirstDelimiterIs(lines: seq<string>, from: nat, k: nat)
    requires from <= k < |lines| && lines[k] == DELIMITER && forall j :: from <= j < k ==> lines[j] != DELIMITER
    ensures FirstDelimiter(lines, from) == k
  {
    var f := FirstDelimiter(lines, from);
    assert f <= k && k <= f;
  }

  lemma FirstFieldIs(lines: seq<string>, from: nat, end: nat, field: string, k: nat)
    requires from <= k <= end <= |lines| && (k < end ==> FieldValue(lines[k], field).Some?)
    requires forall j :: from <= j < k ==> FieldValue(lines[j], field).None?
    ensures FirstField(lines, from, end, field) == k
  {
    hide FieldValue;
    var f := FirstField(lines, from, end, field);
    assert f <= k && k <= f;
  }

  lemma FieldIsNoDelimiter(field: string, observed: string)
    ensures field + ": " + observed != DELIMITER
  {
    assert (field + ": " + observed)[|field|] == ':';
  }

  /** A bump leaves the end of the front matter and the first lines of both fields where they are. */
  lemma BumpKeepsPlaces(lines: seq<string>, field: string, observed: string, other: string)
    requires AsDate(observed).Some? && field in {CUTOFF, UPDATED} && other in {CUTOFF, UPDATED}
    ensures forall k: nat :: FieldAt(Bumped(lines, field, observed), other, k) <==> FieldAt(lines, other, k)
  {
    hide FieldValue, FieldLine, FieldAt, AsDate, Stale;
    var after, n := Bumped(lines, field, observed), Closing(lines);
    if n < |lines| {
      var k := FirstField(lines, 1, n, field);
      var line := field + ": " + observed;
      if k < n && after == lines[k := line] {
        FieldIsNoDelimiter(field, observed);
        FirstDelimiterIs(after, 1, n);
        WrittenField(field, observed);
        OtherField(line);
        OtherField(lines[k]);
        FirstFieldIs(after, 1, n, other, FirstField(lines, 1, n, other));
      }
    }
    forall k: nat ensures FieldAt(after, other, k) <==> FieldAt(lines, other, k) {
      FieldAtExact(after, other, k);
      FieldAtExact(lines, other, k);
    }
  }

  /** Every date of this field in the front matter is one, and not before this one. */
  ghost predicate Dated(lines: seq<string>, field: string, observed: string) {
    forall k: nat, value :: FieldAt(lines, field, k) && FieldLine(lines[k], field, value) ==> NotBefore(value, observed)
  }

  lemma MovedIsDated(before: string, after: string, field: string, observed: string, value: string)
    requires AsDate(observed).Some? && Moved(before, after, field, observed) && (exists v :: FieldLine(before, field, v))
    requires FieldLine(after, field, value)
    ensures NotBefore(value, observed)
  {
    hide FieldLine, AsDate, SpellsADate, EarlierDate, FieldValue;
    var v :| FieldLine(before, field, v);
    FieldExact(before, field, v);
    FieldExact(after, field, value);
    WrittenField(field, observed);
    DatesCompare(observed, observed);
  }

  lemma BumpDates(lines: seq<string>, field: string, observed: string)
    requires AsDate(observed).Some? && field in {CUTOFF, UPDATED}
    ensures Dated(Bumped(lines, field, observed), field, observed)
  {
    hide FieldLine, Bumped, AsDate, Moved, OnlyAt, NotBefore, ClosedAt;
    BumpMoves(lines, field, observed);
    BumpKeepsPlaces(lines, field, observed, field);
    var after := Bumped(lines, field, observed);
    forall k: nat, value | FieldAt(after, field, k) && FieldLine(after[k], field, value) ensures NotBefore(value, observed) {
      MovedIsDated(lines[k], after[k], field, observed, value);
    }
  }

  lemma BumpKeepsDated(lines: seq<string>, field: string, observed: string, other: string)
    requires AsDate(observed).Some? && field in {CUTOFF, UPDATED} && other in {CUTOFF, UPDATED} && field != other
    requires Dated(lines, other, observed)
    ensures Dated(Bumped(lines, field, observed), other, observed)
  {
    hide FieldLine, Bumped, AsDate, Moved, NotBefore, ClosedAt;
    BumpMoves(lines, field, observed);
    BumpKeepsPlaces(lines, field, observed, other);
    var after := Bumped(lines, field, observed);
    forall k: nat, value | FieldAt(after, other, k) && FieldLine(after[k], other, value) ensures NotBefore(value, observed) {
      if j: nat :| FieldAt(lines, field, j) { OtherPlace(lines, field, other, j, k); }
    }
  }

  /** The two fields have their first lines in different places. */
  lemma OtherPlace(lines: seq<string>, field: string, other: string, j: nat, k: nat)
    requires field in {CUTOFF, UPDATED} && other in {CUTOFF, UPDATED} && field != other
    requires FieldAt(lines, field, j) && FieldAt(lines, other, k)
    ensures j != k && j < |lines| && k < |lines|
  {
    hide FieldLine, FieldValue, ClosedAt;
    FieldSome(lines[j], field);
    FieldSome(lines[k], other);
    OtherField(lines[j]);
  }

  /** After both bumps the front matter has no cutoff and no update before this date. */
  lemma BothDated(lines: seq<string>, observed: string)
    requires AsDate(observed).Some?
    ensures var after := BothBumped(lines, observed); Dated(after, CUTOFF, observed) && Dated(after, UPDATED, observed)
  {
    hide Dated, Bumped, AsDate;
    var one := Bumped(lines, CUTOFF, observed);
    BumpDates(lines, CUTOFF, observed);
    BumpDates(one, UPDATED, observed);
    FieldsDiffer();
    BumpKeepsDated(one, UPDATED, observed, CUTOFF);
  }

  lemma FieldsDiffer()
    ensures CUTOFF != UPDATED
  {
    assert CUTOFF[0] != UPDATED[0];
  }

  /** Down to line `n` only the first lines of the two fields have changed, and each as it should. */
  ghost predicate FrontMoved(before: seq<string>, after: seq<string>, n: nat, observed: string) {
    n < |before| && n < |after| && forall j: nat :: j <= n ==>
      (FieldAt(before, CUTOFF, j) ==> Moved(before[j], after[j], CUTOFF, observed))
      && (FieldAt(before, UPDATED, j) ==> Moved(before[j], after[j], UPDATED, observed))
      && (!FieldAt(before, CUTOFF, j) && !FieldAt(before, UPDATED, j) ==> after[j] == before[j])
  }

  lemma BothMove(lines: seq<string>, observed: string)
    requires AsDate(observed).Some? && lines != []
    ensures FrontMoved(lines, BothBumped(lines, observed), |lines| - 1, observed)
  {
    hide FieldAt, Bumped, AsDate, Moved;
    var one := Bumped(lines, CUTOFF, observed);
    var two := Bumped(one, UPDATED, observed);
    BumpMoves(lines, CUTOFF, observed);
    BumpMoves(one, UPDATED, observed);
    BumpKeepsPlaces(lines, CUTOFF, observed, UPDATED);
    FieldsDiffer();
    forall j: nat, k: nat | FieldAt(lines, CUTOFF, j) && FieldAt(lines, UPDATED, k) ensures j != k && j < |lines| && k < |lines| {
      OtherPlace(lines, CUTOFF, UPDATED, j, k);
    }
    forall j: nat, k: nat | FieldAt(lines, CUTOFF, j) && FieldAt(lines, CUTOFF, k) ensures j == k { OnePlace(lines, CUTOFF, j, k); }
    forall j: nat, k: nat | FieldAt(lines, UPDATED, j) && FieldAt(lines, UPDATED, k) ensures j == k { OnePlace(lines, UPDATED, j, k); }
  }

  lemma OnePlace(lines: seq<string>, field: string, j: nat, k: nat)
    requires FieldAt(lines, field, j) && FieldAt(lines, field, k)
    ensures j == k
  {
    FieldAtExact(lines, field, j);
    FieldAtExact(lines, field, k);
  }

  /** Texts with the same front matter have their fields in the same places. */
  lemma SameFront(a: seq<string>, b: seq<string>, n: nat, field: string)
    requires ClosedAt(a, n) && n < |b| && forall j :: 0 <= j <= n ==> b[j] == a[j]
    ensures forall k: nat :: FieldAt(b, field, k) <==> FieldAt(a, field, k)
  {
    hide FieldLine;
    forall m: nat ensures (ClosedAt(a, m) <==> m == n) && (ClosedAt(b, m) <==> m == n) { }
  }

  lemma FrontMovedAfter(before: seq<string>, placed: seq<string>, after: seq<string>, n: nat, observed: string)
    requires ClosedAt(before, n) && n < |placed| && (forall j :: 0 <= j <= n ==> placed[j] == before[j])
    requires FrontMoved(placed, after, |placed| - 1, observed)
    ensures FrontMoved(before, after, n, observed)
  {
    hide FieldAt, Moved;
    SameFront(before, placed, n, CUTOFF);
    SameFront(before, placed, n, UPDATED);
  }

  /** A verdict written behind the front matter moves its dates and nothing else there. */
  lemma WrittenMoves(lines: seq<string>, v: Verdict, named: TitleTest, n: nat)
    requires AsDate(v.observed).Some? && Written(lines, v, named).Some?
    requires ClosedAt(lines, n) && n < FirstCandidate(lines, 0, named)
    ensures FrontMoved(lines, Written(lines, v, named).value, n, v.observed)
  {
    hide FieldAt, AsDate, Placed, BothBumped, FrontMoved, RowText, VerdictCells, FirstCandidate;
    var c := FirstCandidate(lines, 0, named);
    var placed := Placed(lines, c, Decimal(v.index), RowText(VerdictCells(v)));
    PlacedKeeps(lines, c, Decimal(v.index), RowText(VerdictCells(v)));
    BothMove(placed, v.observed);
    FrontMovedAfter(lines, placed, BothBumped(placed, v.observed), n, v.observed);
  }

  lemma WrittenDated(lines: seq<string>, v: Verdict, named: TitleTest)
    requires AsDate(v.observed).Some? && Written(lines, v, named).Some?
    ensures var after := Written(lines, v, named).value; Dated(after, CUTOFF, v.observed) && Dated(after, UPDATED, v.observed)
  {
    hide AsDate, Placed, BothBumped, Dated, RowText, VerdictCells, FirstCandidate;
    BothDated(Placed(lines, FirstCandidate(lines, 0, named), Decimal(v.index), RowText(VerdictCells(v))), v.observed);
  }
}
