/** The newest token count of a session record: the file is read backwards in blocks, and the
    newest line that counts decides. */
module ContextStatus {
  import opened Outcomes
  import opened Bytes
  import opened Text

  function NonEmpty(lines: seq<bytes>): (r: seq<bytes>) {
    if lines == [] then [] else (if lines[0] == [] then [] else [lines[0]]) + NonEmpty(lines[1..])
  }

  function Reversed(lines: seq<bytes>): (r: seq<bytes>)
    ensures |r| == |lines| && forall k :: 0 <= k < |r| ==> r[k] == lines[|lines| - 1 - k]
  {
    if lines == [] then [] else Reversed(lines[1..]) + [lines[0]]
  }

  /** The non-empty lines of a file, newest first. */
  function NewestFirst(file: bytes): seq<bytes> {
    Reversed(NonEmpty(Split(file, NEWLINE)))
  }

  lemma {:induction false} NonEmptyConcat(a: seq<bytes>, b: seq<bytes>)
    ensures NonEmpty(a + b) == NonEmpty(a) + NonEmpty(b)
  {
    if a == [] {
      assert a + b == b;
    } else {
      assert (a + b)[1..] == a[1..] + b;
      NonEmptyConcat(a[1..], b);
    }
  }

  lemma ReversedConcat(a: seq<bytes>, b: seq<bytes>)
    ensures Reversed(a + b) == Reversed(b) + Reversed(a)
  {
  }

  /** A file is its first line, and what follows the line break if there is one. */
  lemma FirstLine(s: bytes) returns (line: bytes, rest: bytes, broken: bool)
    ensures NEWLINE !in line && s == if broken then line + [NEWLINE] + rest else line
    ensures broken ==> |rest| < |s|
  {
    var at := Find(s, NEWLINE, 0);
    line, broken := s[..at], at < |s|;
    rest := if broken then s[at + 1..] else [];
    assert broken ==> s == s[..at] + [s[at]] + s[at + 1..];
  }

  /** More text in front of a file changes only its first line. */
  lemma {:induction false} SplitInFront(a: bytes, b: bytes)
    ensures var parts := Split(b, NEWLINE); Split(a + b, NEWLINE) == Split(a + parts[0], NEWLINE) + parts[1..]
    decreases |a|
  {
    hide Split;
    var line, rest, broken := FirstLine(a);
    if broken {
      SplitInFront(rest, b);
      var first := Split(b, NEWLINE)[0];
      SplitAt(line, NEWLINE, rest + b);
      SplitAt(line, NEWLINE, rest + first);
      assert line + [NEWLINE] + (rest + b) == a + b && line + [NEWLINE] + (rest + first) == a + first;
    } else {
      var head, tail, more := FirstLine(b);
      SplitWhole(a + head, NEWLINE);
      if more {
        SplitAt(head, NEWLINE, tail);
        SplitAt(a + head, NEWLINE, tail);
        assert (a + head) + [NEWLINE] + tail == a + b;
      } else {
        SplitWhole(head, NEWLINE);
      }
    }
  }

  /** One block's lines: all but the first, backwards, without the empty ones. */
  method YieldParts(parts: seq<bytes>, lines: seq<bytes>) returns (more: seq<bytes>)
    ensures more == lines + Reversed(NonEmpty(parts))
  {
    more := lines;
    var k := |parts|;
    assert parts[k..] == [];
    while k > 0
      invariant k <= |parts| && more == lines + Reversed(NonEmpty(parts[k..]))
    {
      k := k - 1;
      assert parts[k..][1..] == parts[k + 1..];
      NonEmptyConcat([parts[k]], parts[k + 1..]);
      assert [parts[k]] + parts[k + 1..] == parts[k..];
      ReversedConcat(NonEmpty([parts[k]]), NonEmpty(parts[k + 1..]));
      NonEmptyOne(parts[k]);
      if parts[k] != [] {
        more := more + [parts[k]];
      }
    }
    assert parts[0..] == parts;
  }

  lemma NonEmptyOne(part: bytes)
    ensures NonEmpty([part]) == if part == [] then [] else [part]
  {
    var one := [part];
    assert one[1..] == [];
    assert NonEmpty(one) == (if one[0] == [] then [] else [one[0]]) + NonEmpty(one[1..]);
  }

  /** `_reverse_lines`, with everything it yields. */
  method ReverseLines(file: bytes, blockSize: nat) returns (lines: seq<bytes>)
    requires blockSize >= 1
    ensures lines == NewestFirst(file)
  {
    hide Split, NonEmpty, Reversed;
    lines := [];
    var position := |file|;
    var remainder: bytes := [];
    assert file[position..] == [];
    SplitNothing();
    while position > 0
      invariant position <= |file|
      invariant var parts := Split(file[position..], NEWLINE);
        remainder == parts[0] && lines == Reversed(NonEmpty(parts[1..]))
    {
      ghost var parts := Split(file[position..], NEWLINE);
      var size := if blockSize < position then blockSize else position;
      var next := position - size;
      var chunk := file[next..position] + remainder;
      SplitInFront(file[next..position], file[position..]);
      assert file[next..position] + file[position..] == file[next..];
      var split := Split(chunk, NEWLINE);
      NonEmptyConcat(split[1..], parts[1..]);
      ReversedConcat(NonEmpty(split[1..]), NonEmpty(parts[1..]));
      assert (split + parts[1..])[1..] == split[1..] + parts[1..];
      lines := YieldParts(split[1..], lines);
      remainder := split[0];
      position := next;
    }
    assert file[0..] == file;
    ghost var all := Split(file, NEWLINE);
    NonEmptyConcat([all[0]], all[1..]);
    assert [all[0]] + all[1..] == all;
    NonEmptyOne(all[0]);
    ReversedConcat(NonEmpty([all[0]]), NonEmpty(all[1..]));
    ReversedOne(remainder);
    if remainder != [] {
      lines := lines + [remainder];
    }
  }

  lemma SplitNothing()
    ensures Split([], NEWLINE) == [[]] && Reversed(NonEmpty([])) == []
    ensures Split([], NEWLINE)[1..] == []
  {
  }

  lemma ReversedOne(line: bytes)
    ensures Reversed([line]) == [line] && Reversed([]) == []
  {
  }

  // ---- the newest event ----

  /** What a line turns out to be: no token count, a token count, or something the reader cannot
      take at all, such as bytes that are not UTF-8 or JSON that is not an object. */
  datatype Reading = NoCount | Count(used: int, window: int) | Unreadable

  datatype Status = Status(used: nat, window: nat, remaining: nat, checkpoint: bool)

  /** `read` judges a line; `percent` is the rounded share of the window that remains. */
  datatype Reader = Reader(read: bytes -> Reading, percent: (nat, nat) -> real, threshold: real)

  predicate Counts(line: bytes, rd: Reader) {
    var e := rd.read(line);
    e.Count? && e.window > 0 && e.used >= 0
  }

  /** The status carries the line's count: what was used and what remains make up the window, or
      nothing remains, and a checkpoint is due exactly when the share that remains is not over the
      threshold. */
  predicate Carries(st: Status, line: bytes, rd: Reader)
    requires Counts(line, rd)
  {
    && Count(st.used, st.window) == rd.read(line)
    && (st.used + st.remaining == st.window || (st.used > st.window && st.remaining == 0))
    && (st.checkpoint <==> !(rd.percent(st.remaining, st.window) > rd.threshold))
  }

  /** Line `k` counts and no later line does. */
  predicate NewestCount(lines: seq<bytes>, k: int, rd: Reader) {
    0 <= k < |lines| && Counts(lines[k], rd) && forall j :: k < j < |lines| ==> !Counts(lines[j], rd)
  }

  predicate ReadableAfter(lines: seq<bytes>, k: int, rd: Reader) {
    forall j :: 0 <= j && k < j < |lines| ==> !rd.read(lines[j]).Unreadable?
  }

  /** `read_context_status`: it returns the status of the newest line that counts exactly when
      every line after that one can be read. */
  method ReadContextStatus(file: bytes, blockSize: nat, rd: Reader) returns (r: Result<Status>)
    requires blockSize >= 1
    ensures var lines := NonEmpty(Split(file, NEWLINE));
      && (forall k :: NewestCount(lines, k, rd) ==> (r.Ok? <==> ReadableAfter(lines, k, rd)))
      && (forall k :: NewestCount(lines, k, rd) && r.Ok? ==> Carries(r.value, lines[k], rd))
      && ((forall k :: !NewestCount(lines, k, rd)) ==> r.Err?)
  {
    hide Split, NonEmpty;
    ghost var lines := NonEmpty(Split(file, NEWLINE));
    var newest := ReverseLines(file, blockSize);
    for n := 0 to |newest|
      invariant forall j :: |lines| - n <= j < |lines| ==> !Counts(lines[j], rd) && !rd.read(lines[j]).Unreadable?
    {
      var line := newest[n];
      ghost var k := |lines| - 1 - n;
      assert line == lines[k];
      var event := rd.read(line);
      if event.Unreadable? {
        UnreadableIsNoCount(line, rd);
        assert forall i :: NewestCount(lines, i, rd) ==> i < k;
        return Err("line cannot be read");
      }
      if event.Count? && event.window > 0 && event.used >= 0 {
        assert NewestCount(lines, k, rd) && ReadableAfter(lines, k, rd);
        NewestIsOne(lines, k, rd);
        var remaining: nat := if event.window > event.used then event.window - event.used else 0;
        return Ok(Status(event.used, event.window, remaining, rd.percent(remaining, event.window) <= rd.threshold));
      }
    }
    return Err("no valid token_count event found");
  }

  lemma NewestIsOne(lines: seq<bytes>, k: int, rd: Reader)
    requires NewestCount(lines, k, rd)
    ensures forall i :: NewestCount(lines, i, rd) ==> i == k
  {
    hide Counts;
  }

  lemma UnreadableIsNoCount(line: bytes, rd: Reader)
    requires rd.read(line).Unreadable?
    ensures !Counts(line, rd)
  {
  }

  // ---- a file that fails ----

  /** A line that counts, and after it a line that is not UTF-8. */
  const SPOILT: bytes := [0x7b, NEWLINE, 0xff]

  function SpoiltReader(): Reader {
    Reader(line => if line == [0xff] then Unreadable else Count(1, 10), (a, b) => 90.0, 20.0)
  }

  lemma SpoiltLines()
    ensures NonEmpty(Split(SPOILT, NEWLINE)) == [[0x7b], [0xff]]
  {
    hide Split;
    var first: bytes, last: bytes := [0x7b], [0xff];
    SplitWhole(last, NEWLINE);
    SplitAt(first, NEWLINE, last);
    assert first + [NEWLINE] + last == SPOILT;
    assert [first] + [last] == [first, last];
    NonEmptyConcat([first], [last]);
    NonEmptyOne(first);
    NonEmptyOne(last);
  }

  /** The file holds a count, and reading it fails for every block size. */
  method ReadSpoilt(blockSize: nat) returns (r: Result<Status>)
    requires blockSize >= 1
    ensures r.Err? && NewestCount(NonEmpty(Split(SPOILT, NEWLINE)), 0, SpoiltReader())
  {
    hide Split, NonEmpty;
    SpoiltLines();
    ghost var lines := NonEmpty(Split(SPOILT, NEWLINE));
    assert NewestCount(lines, 0, SpoiltReader());
    assert SpoiltReader().read(lines[1]).Unreadable?;
    r := ReadContextStatus(SPOILT, blockSize, SpoiltReader());
  }
}
