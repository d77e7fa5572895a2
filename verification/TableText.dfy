/** How a row of cells is spelled as a pipe-table line, and that it reads back. */
module TableText {
  import opened Markdown

  type Row = seq<string>

  /** A cell that survives being written and read: no bar, and no space around it. */
  predicate CleanCell(cell: string) {
    '|' !in cell && Strip(cell) == cell
  }

  /** ` c1 | c2 | ... | cn ` */
  function Inner(cells: Row): string
    requires cells != []
  {
    " " + cells[0] + " " + (if |cells| == 1 then "" else "|" + Inner(cells[1..]))
  }

  function RowText(cells: Row): string
    requires cells != []
  {
    "|" + Inner(cells) + "|"
  }

  function Padded(cells: Row): (r: Row)
    ensures |r| == |cells| && forall i :: 0 <= i < |r| ==> r[i] == " " + cells[i] + " "
  {
    seq(|cells|, i requires 0 <= i < |cells| => " " + cells[i] + " ")
  }

  lemma {:induction false} SplitNone(s: string, c: char)
    requires c !in s
    ensures SplitOn(s, c) == [s]
  {
    if s != [] {
      SplitNone(s[1..], c);
      assert [s[0]] + s[1..] == s;
    }
  }

  lemma {:induction false} SplitFirst(s: string, c: char, rest: string)
    requires c !in s
    ensures SplitOn(s + [c] + rest, c) == [s] + SplitOn(rest, c)
  {
    var whole := s + [c] + rest;
    if s == [] {
      assert whole == [c] + rest && whole[1..] == rest;
    } else {
      SplitFirst(s[1..], c, rest);
      assert whole[1..] == s[1..] + [c] + rest;
      var tail := SplitOn(rest, c);
      assert ([s[1..]] + tail)[1..] == tail;
      assert [s[0]] + s[1..] == s;
    }
  }

  lemma {:induction false} SplitInner(cells: Row)
    requires cells != [] && forall i :: 0 <= i < |cells| ==> '|' !in cells[i]
    ensures SplitOn(Inner(cells), '|') == Padded(cells)
  {
    var first := " " + cells[0] + " ";
    assert '|' !in first;
    if |cells| == 1 {
      assert Inner(cells) == first;
      SplitNone(first, '|');
      assert Padded(cells) == [first];
    } else {
      SplitInner(cells[1..]);
      SplitFirst(first, '|', Inner(cells[1..]));
      assert Inner(cells) == first + ['|'] + Inner(cells[1..]);
      assert Padded(cells) == [first] + Padded(cells[1..]);
    }
  }

  lemma {:induction false} TrimRightKeeps(s: string)
    requires s != [] && !IsSpace(s[|s| - 1])
    ensures TrimRight(s) == s
  {
  }

  lemma TrimLeftShortens(s: string)
    ensures s != [] && IsSpace(s[0]) ==> |TrimLeft(s)| < |s|
  {
  }

  lemma StripClean(cell: string)
    requires Strip(cell) == cell
    ensures cell != [] ==> !IsSpace(cell[0]) && !IsSpace(cell[|cell| - 1])
  {
    TrimLeftShortens(cell);
  }

  lemma StripPadded(cell: string)
    requires Strip(cell) == cell
    ensures Strip(" " + cell + " ") == cell
  {
    StripClean(cell);
    var padded := " " + cell + " ";
    assert padded[1..] == cell + " ";
    if cell == [] {
      assert padded[1..] == " " && " "[1..] == [];
      assert TrimLeft(" ") == TrimLeft(" "[1..]);
    } else {
      assert TrimLeft(cell + " ") == cell + " ";
      assert (cell + " ")[..|cell|] == cell;
      TrimRightKeeps(cell);
    }
  }

  lemma InnerEnds(cells: Row)
    requires cells != []
    ensures var s := Inner(cells); s != [] && s[0] == ' ' && s[|s| - 1] == ' '
  {
    if |cells| > 1 { InnerEnds(cells[1..]); }
  }

  lemma RowStripped(cells: Row)
    requires cells != []
    ensures Strip(RowText(cells)) == RowText(cells)
    ensures TrimRightOf(TrimLeftOf(RowText(cells), '|'), '|') == Inner(cells)
  {
    hide Inner;
    InnerEnds(cells);
    var row, inner := RowText(cells), Inner(cells);
    assert TrimLeft(row) == row;
    TrimRightKeeps(row);
    assert row[1..] == inner + "|";
    assert TrimLeftOf(row, '|') == TrimLeftOf(row[1..], '|') == row[1..];
    assert row[1..][..|inner|] == inner;
    assert TrimRightOf(inner, '|') == inner;
  }

  /** A written row reads back as its cells. */
  lemma CellsOfRow(cells: Row)
    requires cells != [] && forall i :: 0 <= i < |cells| ==> CleanCell(cells[i])
    ensures Cells(RowText(cells)) == cells && PipeRow(RowText(cells)) && Title(RowText(cells)).None?
  {
    hide Inner, Strip;
    RowStripped(cells);
    SplitInner(cells);
    forall i | 0 <= i < |cells| ensures Strip(Padded(cells)[i]) == cells[i] {
      StripPadded(cells[i]);
    }
    assert Cells(RowText(cells)) == StripAll(Padded(cells));
    var row := RowText(cells);
    assert row[0] == '|';
    assert Run(row, ' ') == 0;
    if |row| >= 4 { assert row[..2][0] == '|'; }
  }

  // ---- markers inside a row ----

  predicate Occurs(s: string, p: string, at: nat) {
    at <= |s| && p <= s[at..]
  }

  lemma {:induction false} FindTextFirst(s: string, p: string, at: nat)
    requires p != [] && at < |s| && Occurs(s, p, at)
    ensures ContainsText(s, p)
  {
    if !(p <= s) {
      assert s[1..][at - 1..] == s[at..];
      FindTextFirst(s[1..], p, at - 1);
    }
  }

  lemma ContainedOccurs(s: string, p: string)
    requires p != [] && ContainsText(s, p)
    ensures Occurs(s, p, FindText(s, p)) && FindText(s, p) + |p| <= |s|
  {
  }

  lemma ContainedChar(s: string, p: string, c: char)
    requires c in p && ContainsText(s, p)
    ensures c in s
  {
    ContainedOccurs(s, p);
    var at := FindText(s, p);
    var i :| 0 <= i < |p| && p[i] == c;
    assert s[at..][..|p|][i] == s[at + i];
  }

  lemma OccursAside(a: string, c: char, b: string, p: string, at: nat)
    requires p != [] && c !in p && at + |p| <= |a| + 1 + |b| && Occurs(a + [c] + b, p, at)
    ensures (at < |a| && Occurs(a, p, at)) || (at > |a| && at - |a| - 1 < |b| && Occurs(b, p, at - |a| - 1))
  {
    var s := a + [c] + b;
    assert s[at..at + |p|] == p by { assert s[at..][..|p|] == p; }
    assert forall j :: at <= j < at + |p| ==> s[j] != c by {
      forall j | at <= j < at + |p| ensures s[j] != c {
        assert s[at..at + |p|][j - at] in p;
      }
    }
    assert s[|a|] == c;
    if at < |a| {
      assert a[at..][..|p|] == p;
    } else {
      assert b[at - |a| - 1..] == s[at..];
    }
  }

  /** A marker cannot reach across a character it does not have. */
  lemma AcrossSeparator(a: string, c: char, b: string, p: string)
    requires p != [] && c !in p
    ensures ContainsText(a + [c] + b, p) ==> ContainsText(a, p) || ContainsText(b, p)
  {
    var s := a + [c] + b;
    if ContainsText(s, p) {
      var at := FindText(s, p);
      ContainedOccurs(s, p);
      OccursAside(a, c, b, p, at);
      if at < |a| {
        FindTextFirst(a, p, at);
      } else {
        FindTextFirst(b, p, at - |a| - 1);
      }
    }
  }

  lemma TooShort(s: string, p: string)
    requires |s| < |p|
    ensures !ContainsText(s, p)
  {
    if ContainsText(s, p) { ContainedOccurs(s, p); }
  }

  lemma {:induction false} InnerHasNo(cells: Row, p: string)
    requires cells != [] && |p| > 0 && ' ' !in p && '|' !in p
    requires forall i :: 0 <= i < |cells| ==> !ContainsText(cells[i], p)
    ensures !ContainsText(Inner(cells), p)
  {
    hide ContainsText;
    TooShort("", p);
    AcrossSeparator("", ' ', cells[0], p);
    assert "" + [' '] + cells[0] == " " + cells[0];
    if |cells| == 1 {
      AcrossSeparator(" " + cells[0], ' ', "", p);
      assert " " + cells[0] + [' '] + "" == Inner(cells);
    } else {
      InnerHasNo(cells[1..], p);
      AcrossSeparator("", '|', Inner(cells[1..]), p);
      var rest := "" + ['|'] + Inner(cells[1..]);
      AcrossSeparator(" " + cells[0], ' ', rest, p);
      assert " " + cells[0] + [' '] + rest == Inner(cells);
    }
  }

  lemma RowHasNo(cells: Row, p: string)
    requires cells != [] && |p| > 0 && ' ' !in p && '|' !in p
    requires forall i :: 0 <= i < |cells| ==> !ContainsText(cells[i], p)
    ensures !ContainsText(RowText(cells), p)
  {
    hide ContainsText, Inner;
    InnerHasNo(cells, p);
    TooShort("", p);
    AcrossSeparator("", '|', Inner(cells), p);
    var front := "" + ['|'] + Inner(cells);
    AcrossSeparator(front, '|', "", p);
    assert front + ['|'] + "" == RowText(cells);
  }

  /** A line whose first character is a bar opens no fence. */
  lemma BarIsNoFence(line: string)
    requires line != [] && line[0] == '|'
    ensures FenceRun(line).None?
  {
    assert Run(line, ' ') == 0 && line[0..] == line;
    assert Run(line, '`') == 0 && Run(line, '~') == 0;
  }

  /** A row whose cells hold no comment marker is shown. */
  lemma RowIsShown(cells: Row)
    requires cells != [] && forall i :: 0 <= i < |cells| ==> !ContainsText(cells[i], OPEN_COMMENT)
    ensures Shows(Plain, RowText(cells)) && Next(Plain, RowText(cells)) == Plain
  {
    hide Inner, ContainsText;
    RowHasNo(cells, OPEN_COMMENT);
    BarIsNoFence(RowText(cells));
  }

  lemma ContainedInside(a: string, s: string, b: string, p: string)
    requires p != [] && ContainsText(s, p)
    ensures ContainsText(a + s + b, p)
  {
    var at, whole := FindText(s, p), a + s + b;
    ContainedOccurs(s, p);
    assert whole[|a| + at..][..|p|] == s[at..][..|p|];
    FindTextFirst(whole, p, |a| + at);
  }

  lemma {:induction false} InnerHas(cells: Row, p: string, i: nat)
    requires i < |cells| && p != [] && ContainsText(cells[i], p)
    ensures ContainsText(Inner(cells), p)
  {
    hide ContainsText;
    var tail := if |cells| == 1 then "" else "|" + Inner(cells[1..]);
    if i == 0 {
      ContainedInside(" ", cells[0], " " + tail, p);
      assert " " + cells[0] + (" " + tail) == Inner(cells);
    } else {
      InnerHas(cells[1..], p, i - 1);
      ContainedInside(" " + cells[0] + " |", Inner(cells[1..]), "", p);
      assert " " + cells[0] + " |" + Inner(cells[1..]) + "" == Inner(cells);
    }
  }

  /** A marker in a cell is a marker in the row. */
  lemma RowHas(cells: Row, p: string, i: nat)
    requires i < |cells| && p != [] && ContainsText(cells[i], p)
    ensures ContainsText(RowText(cells), p)
  {
    hide ContainsText, Inner;
    InnerHas(cells, p, i);
    ContainedInside("|", Inner(cells), "|", p);
    assert "|" + Inner(cells) + "|" == RowText(cells);
  }
}
