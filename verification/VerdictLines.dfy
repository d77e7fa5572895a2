/** What the writer of verification rows leaves of a record's lines, as functions: the row it puts
    under the first header, and the two dates it moves forward. */
module VerdictLines {
  import opened Outcomes
  import opened Markdown
  import opened TableText
  import opened AcceptanceTable
  import opened Dates

  // ---- dates ----

  function Digit(c: char): Option<nat> {
    if '0' <= c <= '9' then Some(c as nat - '0' as nat) else None
  }

  function Number(s: string): (n: Option<nat>) {
    if s == [] then Some(0)
    else
      var front, last := Number(s[..|s| - 1]), Digit(s[|s| - 1]);
      if front.None? || last.None? then None else Some(10 * front.value + last.value)
  }

  function DaysIn(year: nat, month: nat): nat {
    if month == 2 then (if year % 4 == 0 && (year % 100 != 0 || year % 400 == 0) then 29 else 28)
    else if month in {4, 6, 9, 11} then 30 else 31
  }

  /** `as_date` of a text, as a number that orders like the date. */
  function AsDate(s: string): Option<nat> {
    if |s| != 10 || s[4] != '-' || s[7] != '-' then None
    else
      var year, month, day := Number(s[..4]), Number(s[5..7]), Number(s[8..]);
      if year.None? || month.None? || day.None? then None
      else if year.value < 1 || !(1 <= month.value <= 12) || !(1 <= day.value <= DaysIn(year.value, month.value)) then None
      else Some(10000 * year.value + 100 * month.value + day.value)
  }

  function Decimal(n: nat): (s: string)
    ensures s != [] && forall i :: 0 <= i < |s| ==> '0' <= s[i] <= '9'
  {
    (if n < 10 then [] else Decimal(n / 10)) + ['0' + (n % 10) as char]
  }

  // ---- what is written ----

  datatype Verdict = Verdict(index: nat, verdict: string, reason: string, runId: string, digest: string, observed: string)

  function VerdictCells(v: Verdict): (r: Row)
    ensures |r| == 6
  {
    [Decimal(v.index), v.verdict, "`" + v.runId + "`", "`" + v.digest + "`", v.observed, v.reason]
  }

  /** A verdict whose cells survive the table, none of them opening a comment. */
  predicate CleanVerdict(v: Verdict) {
    && AsDate(v.observed).Some?
    && forall i :: 0 <= i < 6 ==> CleanCell(VerdictCells(v)[i]) && !ContainsText(VerdictCells(v)[i], OPEN_COMMENT)
  }

  // ---- the front matter ----

  function FirstDelimiter(lines: seq<string>, from: nat): (k: nat)
    requires from <= |lines|
    ensures from <= k <= |lines| && (k < |lines| ==> lines[k] == DELIMITER)
    ensures forall j :: from <= j < k ==> lines[j] != DELIMITER
    decreases |lines| - from
  {
    if from == |lines| || lines[from] == DELIMITER then from else FirstDelimiter(lines, from + 1)
  }

  /** `lines.index("---", 1)`, or the number of lines when there is none. */
  function Closing(lines: seq<string>): (k: nat)
    ensures k <= |lines|
  {
    if lines == [] then 0 else FirstDelimiter(lines, 1)
  }

  predicate NoSpace(s: string) {
    forall i :: 0 <= i < |s| ==> !IsSpace(s[i])
  }

  /** The group of `field:\s*(\S+)\s*` over the whole line. */
  function FieldValue(line: string, field: string): (r: Option<string>)
    ensures r.Some? ==> |line| > |field| && line[..|field|] == field && line[|field|] == ':'
  {
    if |line| <= |field| || line[..|field|] != field || line[|field|] != ':' then None
    else
      var value := Strip(line[|field| + 1..]);
      if value == [] || !NoSpace(value) then None else Some(value)
  }

  function FirstField(lines: seq<string>, from: nat, end: nat, field: string): (k: nat)
    requires from <= end <= |lines|
    ensures from <= k <= end && (k < end ==> FieldValue(lines[k], field).Some?)
    ensures forall j :: from <= j < k ==> FieldValue(lines[j], field).None?
    decreases end - from
  {
    if from == end || FieldValue(lines[from], field).Some? then from else FirstField(lines, from + 1, end, field)
  }

  /** Whether this recorded date gives way to the one observed now. */
  predicate Stale(value: string, observed: string)
    requires AsDate(observed).Some?
  {
    AsDate(value).None? || AsDate(value).value < AsDate(observed).value
  }

  /** What `_front_matter_bump` leaves. */
  function Bumped(lines: seq<string>, field: string, observed: string): (r: seq<string>)
    requires AsDate(observed).Some?
    ensures |r| == |lines|
  {
    var closing := Closing(lines);
    if closing >= |lines| then lines
    else
      var k := FirstField(lines, 1, closing, field);
      if k < closing && Stale(FieldValue(lines[k], field).value, observed) then lines[k := field + ": " + observed] else lines
  }

  const CUTOFF := "evidence_cutoff"
  const UPDATED := "updated"

  function BothBumped(lines: seq<string>, observed: string): (r: seq<string>)
    requires AsDate(observed).Some?
    ensures |r| == |lines|
  {
    Bumped(Bumped(lines, CUTOFF, observed), UPDATED, observed)
  }

  // ---- the table ----

  function FirstCandidate(lines: seq<string>, from: nat, named: TitleTest): (c: nat)
    requires from <= |lines|
    ensures from <= c <= |lines| && (c < |lines| ==> Candidate(lines, c, named, VERIFICATION_COLUMNS))
    ensures forall j :: from <= j < c ==> !Candidate(lines, j, named, VERIFICATION_COLUMNS)
    decreases |lines| - from
  {
    if from == |lines| || Candidate(lines, from, named, VERIFICATION_COLUMNS) then from else FirstCandidate(lines, from + 1, named)
  }

  /** The first line of a stretch whose first cell is `key`, or its end. */
  function FirstKeyed(lines: seq<string>, from: nat, end: nat, key: string): (k: nat)
    requires from <= end <= |lines|
    ensures from <= k <= end && (k < end ==> Cells(lines[k])[0] == key)
    ensures forall j :: from <= j < k ==> Cells(lines[j])[0] != key
    decreases end - from
  {
    if from == end || Cells(lines[from])[0] == key then from else FirstKeyed(lines, from + 1, end, key)
  }

  function Under(lines: seq<string>, c: nat): (from: nat)
    requires c < |lines|
    ensures c < from <= |lines|
  {
    if c + 2 <= |lines| then c + 2 else |lines|
  }

  function Splice(lines: seq<string>, p: nat, x: nat, row: string): (r: seq<string>)
    requires p + x <= |lines|
    ensures |r| == |lines| + 1 - x
  {
    lines[..p] + [row] + lines[p + x..]
  }

  /** The row put over the first one with its key under the header at `c`, else after the last. */
  function Placed(lines: seq<string>, c: nat, key: string, row: string): seq<string>
    requires c < |lines|
  {
    var from := Under(lines, c);
    var end := RowEnd(lines, from);
    var k := FirstKeyed(lines, from, end, key);
    Splice(lines, k, if k < end then 1 else 0, row)
  }

  /** The lines `record_verdict` writes; none when there is no table to write into. */
  function Written(lines: seq<string>, v: Verdict, named: TitleTest): Option<seq<string>>
    requires AsDate(v.observed).Some?
  {
    var c := FirstCandidate(lines, 0, named);
    if c >= |lines| then None
    else Some(BothBumped(Placed(lines, c, Decimal(v.index), RowText(VerdictCells(v))), v.observed))
  }

  lemma SectionStep(lines: seq<string>, k: nat, named: TitleTest)
    requires k < |lines|
    ensures InSection(lines, k + 1, named) == if AnyHeading(lines, k) then Matched(lines, k, named) else InSection(lines, k, named)
  {
  }

  /** The lines down to the delimiter row of the table stay, and at most one is added. */
  lemma PlacedKeeps(lines: seq<string>, c: nat, key: string, row: string)
    requires c < |lines|
    ensures var r := Placed(lines, c, key, row);
      |lines| <= |r| <= |lines| + 1 && forall j :: 0 <= j < Under(lines, c) ==> r[j] == lines[j]
  {
    hide RowEnd, FirstKeyed, Under;
  }
}
