/** How a verifier's answer becomes a recorded verdict: outside the vocabulary nothing is
    written, and a reason is reduced to one clean cell. */
module VerifierAnswer {
  import opened Outcomes
  import opened Markdown
  import opened TableText
  import opened AcceptanceTable
  import opened Spacing
  import opened VerdictLines
  import opened VerdictWriter

  const MAX_REASON_CHARS := 300
  const ACCEPTANCE_VERDICTS := {"satisfied", "contradicted", "absent"}

  function WordLength(s: string): (n: nat)
    ensures n <= |s| && NoSpace(s[..n])
    ensures s != [] && !IsSpace(s[0]) ==> n > 0
    ensures n < |s| ==> IsSpace(s[n])
  {
    if s == [] || IsSpace(s[0]) then 0 else
      var n := 1 + WordLength(s[1..]);
      assert s[..n] == [s[0]] + s[1..][..n - 1];
      n
  }

  /** `" ".join(text.split())` */
  function Collapsed(text: string): (r: string)
    decreases |text|
  {
    var t := TrimLeft(text);
    if t == [] then []
    else
      var n := WordLength(t);
      var rest := Collapsed(t[n..]);
      t[..n] + (if rest == [] then [] else " " + rest)
  }

  /** The words of a text, without the space around them. */
  ghost predicate Worded(text: string, words: seq<string>)
    decreases |words|
  {
    if words == [] then Spaces(text)
    else
      exists gap, rest :: Spaces(gap) && words[0] != [] && NoSpace(words[0]) && text == gap + words[0] + rest
        && (rest == [] || IsSpace(rest[0])) && Worded(rest, words[1..])
  }

  /** Words with one blank between them. */
  function Joined(words: seq<string>): string {
    if words == [] then "" else words[0] + (if |words| == 1 then "" else " " + Joined(words[1..]))
  }

  /** Collapsing keeps the words and puts one blank between them. */
  lemma {:induction false} CollapsedJoins(text: string) returns (words: seq<string>)
    ensures Worded(text, words) && Collapsed(text) == Joined(words)
    decreases |text|
  {
    hide WordLength, TrimLeft, IsSpace;
    var gap := TrimLeftSplits(text);
    var t := TrimLeft(text);
    if t == [] {
      return [];
    }
    TrimmedStart(text);
    var n := WordLength(t);
    var rest := CollapsedJoins(t[n..]);
    words := [t[..n]] + rest;
    assert words[1..] == rest && words[0] == t[..n] && text == gap + t[..n] + t[n..];
    if rest != [] { assert rest[0] != []; }
  }

  lemma {:induction false} TrimmedStart(s: string)
    ensures TrimLeft(s) == [] || !IsSpace(TrimLeft(s)[0])
  {
    if s != [] && IsSpace(s[0]) { TrimmedStart(s[1..]); }
  }

  function Unbarred(s: string): (r: string)
    ensures |r| == |s| && forall i :: 0 <= i < |r| ==> r[i] == if s[i] == '|' then '/' else s[i]
  {
    seq(|s|, i requires 0 <= i < |s| => if s[i] == '|' then '/' else s[i])
  }

  /** `_sanitized_reason` */
  function SanitizedReason(text: string): string {
    var line := Unbarred(Collapsed(text));
    Strip(if |line| <= MAX_REASON_CHARS then line else line[..MAX_REASON_CHARS])
  }

  /** The only space in these texts is the blank. */
  predicate OneLine(s: string) {
    forall i :: 0 <= i < |s| ==> IsSpace(s[i]) ==> s[i] == ' '
  }

  lemma {:induction false} CollapsedIsOneLine(text: string)
    ensures OneLine(Collapsed(text))
    decreases |text|
  {
    var t := TrimLeft(text);
    if t != [] {
      var n := WordLength(t);
      CollapsedIsOneLine(t[n..]);
      forall i | 0 <= i < n ensures !IsSpace(t[..n][i]) { }
    }
  }

  lemma TrimPart(s: string)
    ensures exists a, b :: 0 <= a <= b <= |s| && Strip(s) == s[a..b]
    ensures Strip(Strip(s)) == Strip(s)
  {
    TrimLeftIsTail(s);
    var t := TrimLeft(s);
    var r := TrimRight(t);
    var a := |s| - |t|;
    assert r == s[a..a + |r|];
    if r != [] {
      assert r[0] == t[0];
      TrimRightKeeps(r);
    }
  }

  lemma {:induction false} TrimLeftIsTail(s: string)
    ensures TrimLeft(s) == s[|s| - |TrimLeft(s)|..]
  {
    if s != [] && IsSpace(s[0]) { TrimLeftIsTail(s[1..]); }
  }

  /** Whatever the verifier said, the reason is one clean cell of at most 300 characters. */
  lemma ReasonIsClean(text: string)
    ensures var r := SanitizedReason(text); CleanCell(r) && OneLine(r) && |r| <= MAX_REASON_CHARS
  {
    hide Strip, Collapsed, CleanCell;
    CollapsedIsOneLine(text);
    var line := Unbarred(Collapsed(text));
    var short := if |line| <= MAX_REASON_CHARS then line else line[..MAX_REASON_CHARS];
    assert '|' !in short && OneLine(short);
    StripIsClean(short);
  }

  lemma {:induction false} JoinedEnds(words: seq<string>, text: string)
    requires Worded(text, words) && words != []
    ensures var s := Joined(words); s != [] && !IsSpace(s[0]) && !IsSpace(s[|s| - 1])
    ensures forall i :: 0 <= i < |Joined(words)| - 1 && IsSpace(Joined(words)[i]) ==> !IsSpace(Joined(words)[i + 1])
    decreases |words|
  {
    var gap, rest :| Spaces(gap) && words[0] != [] && NoSpace(words[0]) && text == gap + words[0] + rest
      && (rest == [] || IsSpace(rest[0])) && Worded(rest, words[1..]);
    if |words| > 1 {
      JoinedEnds(words[1..], rest);
      var tail, s := Joined(words[1..]), Joined(words);
      assert s == words[0] + " " + tail;
      forall i | 0 <= i < |s| - 1 && IsSpace(s[i]) ensures !IsSpace(s[i + 1]) {
        if i > |words[0]| {
          assert s[i] == tail[i - |words[0]| - 1] && s[i + 1] == tail[i - |words[0]|];
        }
      }
    }
  }

  /** The reason is the verifier's own words with one blank between them and every bar a slash, as
      far as 300 characters go. */
  lemma ReasonMeans(text: string) returns (words: seq<string>)
    ensures Worded(text, words)
    ensures var said, r := Unbarred(Joined(words)), SanitizedReason(text);
      && r <= said && (|said| <= MAX_REASON_CHARS ==> r == said)
      && (|said| > MAX_REASON_CHARS ==> |r| == if said[MAX_REASON_CHARS - 1] == ' ' then MAX_REASON_CHARS - 1 else MAX_REASON_CHARS)
  {
    hide Strip, Collapsed, Worded, Joined;
    words := CollapsedJoins(text);
    CollapsedIsOneLine(text);
    var joined := Joined(words);
    var said := Unbarred(joined);
    if words != [] {
      JoinedEnds(words, text);
      var n := if |said| <= MAX_REASON_CHARS then |said| else MAX_REASON_CHARS;
      assert !IsSpace(said[0]);
      forall i | 0 <= i < |said| ensures IsSpace(said[i]) <==> IsSpace(joined[i]) { }
      StripShort(said[..n]);
      assert said[..|said|] == said;
    } else {
      JoinedNone();
    }
  }

  lemma JoinedNone()
    ensures Joined([]) == "" && Strip("") == ""
  {
  }

  /** A text that begins with no space and ends with at most one loses that one. */
  lemma StripShort(s: string)
    requires s != [] && !IsSpace(s[0]) && (|s| >= 2 && IsSpace(s[|s| - 1]) ==> !IsSpace(s[|s| - 2]))
    ensures Strip(s) == if IsSpace(s[|s| - 1]) then s[..|s| - 1] else s
  {
    if IsSpace(s[|s| - 1]) { TrimRightKeeps(s[..|s| - 1]); } else { TrimRightKeeps(s); }
  }

  lemma StripIsClean(s: string)
    requires '|' !in s && OneLine(s)
    ensures CleanCell(Strip(s)) && OneLine(Strip(s)) && |Strip(s)| <= |s|
  {
    hide Strip;
    TrimPart(s);
    var a, b :| 0 <= a <= b <= |s| && Strip(s) == s[a..b];
    assert forall i :: 0 <= i < b - a ==> s[a..b][i] == s[a + i];
  }

  /** `_parsed_verdict`; `fold` is `str.casefold`. */
  function ParsedVerdict(answer: Option<(string, string)>, fold: string -> string): (r: Option<(string, string)>)
    ensures r.Some? ==> r.value.0 in ACCEPTANCE_VERDICTS && r.value.1 != []
  {
    if answer.None? then None
    else
      var verdict, reason := fold(Strip(answer.value.0)), SanitizedReason(answer.value.1);
      if verdict !in ACCEPTANCE_VERDICTS || reason == [] then None else Some((verdict, reason))
  }

  /** What the runner knows about the criterion it hands out. */
  datatype CriterionCase = CriterionCase(index: nat, digest: string, evidenceAbsent: bool)

  const NOTHING_TO_VERIFY := "builder evidence is absent; nothing to verify"

  /** The verdict a case and an answer lead to, before it is written. */
  function Judged(c: CriterionCase, answer: Option<(string, string)>, fold: string -> string): Option<(string, string)> {
    if c.evidenceAbsent then Some(("absent", NOTHING_TO_VERIFY)) else ParsedVerdict(answer, fold)
  }

  /** Absent evidence is recorded as absent without an answer; otherwise there is something to record
      exactly when the answer's word is in the vocabulary and its reason has a word. */
  lemma JudgedExactly(c: CriterionCase, answer: Option<(string, string)>, fold: string -> string, word: string)
    requires answer.Some? ==> Core(answer.value.0, word)
    ensures var judged := Judged(c, answer, fold);
      if c.evidenceAbsent then judged.Some? && judged.value.0 == "absent"
      else
        && (judged.Some? <==>
              answer.Some? && fold(word) in {"satisfied", "contradicted", "absent"} && !Spaces(answer.value.1))
        && (judged.Some? ==> judged.value == (fold(word), SanitizedReason(answer.value.1)))
  {
    hide Strip, Worded, Joined;
    if answer.Some? {
      StripExactly(answer.value.0, word);
      var words := ReasonMeans(answer.value.1);
      WordsOrSpace(answer.value.1, words);
    }
  }

  lemma WordsOrSpace(text: string, words: seq<string>)
    requires Worded(text, words)
    ensures Spaces(text) <==> words == []
    ensures Joined(words) == [] <==> words == []
    ensures words != [] ==> !IsSpace(Joined(words)[0])
  {
    if words != [] {
      JoinedEnds(words, text);
      var gap, rest :| Spaces(gap) && words[0] != [] && NoSpace(words[0]) && text == gap + words[0] + rest
        && (rest == [] || IsSpace(rest[0])) && Worded(rest, words[1..]);
      assert text[|gap|] == words[0][0];
    }
  }

  /** `verify_criterion` from the answer on: `v` is none when nothing is recorded, and `ok` is
      false when the record has no table to write into. */
  method VerifyCriterion(file: RecordFile, c: CriterionCase, answer: Option<(string, string)>,
                         runId: string, observed: string, fold: string -> string, named: TitleTest)
    returns (v: Option<Verdict>, ok: bool)
    requires AsDate(observed).Some?
    modifies file
    ensures v.Some? == Judged(c, answer, fold).Some?
    ensures v.Some? ==> v.value.index == c.index && v.value.digest == c.digest && v.value.verdict in ACCEPTANCE_VERDICTS
    ensures v.Some? ==> CleanCell(v.value.reason) && CleanCell(v.value.verdict) && v.value.observed == observed && v.value.runId == runId
    ensures v.Some? ==> (v.value.verdict, v.value.reason) == Judged(c, answer, fold).value
    ensures v.None? ==> ok && file.lines == old(file.lines)
    ensures v.Some? ==> ok == Written(old(file.lines), v.value, named).Some?
    ensures v.Some? ==> file.lines == if ok then Written(old(file.lines), v.value, named).value else old(file.lines)
  {
    hide AsDate, Strip, SanitizedReason, Written;
    var parsed := Judged(c, answer, fold);
    if parsed.None? {
      return None, true;
    }
    if !c.evidenceAbsent { ReasonIsClean(answer.value.1); }
    CleanWords();
    var verdict := Verdict(c.index, parsed.value.0, parsed.value.1, runId, c.digest, observed);
    ok := file.RecordVerdict(verdict, named);
    v := Some(verdict);
  }

  lemma CleanWords()
    ensures CleanCell(NOTHING_TO_VERIFY) && forall w :: w in ACCEPTANCE_VERDICTS ==> CleanCell(w)
  {
    hide CleanCell, NOTHING_TO_VERIFY;
    NothingIsClean();
    WordIsClean("satisfied");
    WordIsClean("contradicted");
    WordIsClean("absent");
  }

  lemma WordIsClean(s: string)
    requires s != [] && !IsSpace(s[0]) && !IsSpace(s[|s| - 1]) && '|' !in s
    ensures CleanCell(s)
  {
    Ends(s);
  }

  lemma NothingIsClean()
    ensures CleanCell(NOTHING_TO_VERIFY)
  {
    hide CleanCell, NOTHING_TO_VERIFY;
    NothingInParts();
    var a, b, c, d := "builder evidence", " is absent;", " nothing to", " verify";
    assert a[0] == 'b' && d[6] == 'y';
    PartsAreClean(a, b, c, d);
  }

  lemma NothingInParts()
    ensures NOTHING_TO_VERIFY == "builder evidence" + " is absent;" + " nothing to" + " verify"
  {
    assert "builder evidence" + " is absent;" == "builder evidence is absent;";
    assert " nothing to" + " verify" == " nothing to verify";
  }

  lemma PartsAreClean(a: string, b: string, c: string, d: string)
    requires a != [] && d != [] && !IsSpace(a[0]) && !IsSpace(d[|d| - 1])
    requires '|' !in a && '|' !in b && '|' !in c && '|' !in d
    ensures CleanCell(a + b + c + d)
  {
    hide CleanCell, IsSpace;
    var s := a + b + c + d;
    assert s[0] == a[0] && s[|s| - 1] == d[|d| - 1];
    WordIsClean(s);
  }

  lemma Ends(s: string)
    requires s != [] && !IsSpace(s[0]) && !IsSpace(s[|s| - 1])
    ensures Strip(s) == s
  {
    TrimRightKeeps(s);
  }
}
