/** What stripping space from a text means. */
module Spacing {
  import opened Markdown

  predicate Spaces(s: string) {
    forall i :: 0 <= i < |s| ==> IsSpace(s[i])
  }

  /** `core` is the text without the space around it. */
  ghost predicate Core(text: string, core: string) {
    (exists a, b :: Spaces(a) && Spaces(b) && text == a + core + b) && (core == [] || (!IsSpace(core[0]) && !IsSpace(core[|core| - 1])))
  }

  lemma {:induction false} TrimLeftSkips(a: string, s: string)
    requires Spaces(a) && (s == [] || !IsSpace(s[0]))
    ensures TrimLeft(a + s) == s
  {
    if a == [] {
      assert a + s == s;
    } else {
      assert (a + s)[1..] == a[1..] + s;
      TrimLeftSkips(a[1..], s);
    }
  }

  lemma {:induction false} TrimRightSkips(s: string, b: string)
    requires Spaces(b) && (s == [] || !IsSpace(s[|s| - 1]))
    ensures TrimRight(s + b) == s
  {
    if b == [] {
      assert s + b == s;
    } else {
      var n := |b| - 1;
      assert (s + b)[..|s + b| - 1] == s + b[..n] && (s + b)[|s + b| - 1] == b[n];
      TrimRightSkips(s, b[..n]);
    }
  }

  lemma {:induction false} TrimLeftSplits(s: string) returns (a: string)
    ensures Spaces(a) && s == a + TrimLeft(s)
  {
    if s != [] && IsSpace(s[0]) {
      var rest := TrimLeftSplits(s[1..]);
      a := [s[0]] + rest;
    } else {
      a := [];
    }
  }

  lemma {:induction false} TrimRightSplits(s: string) returns (b: string)
    ensures Spaces(b) && s == TrimRight(s) + b
  {
    if s != [] && IsSpace(s[|s| - 1]) {
      var n := |s| - 1;
      var rest := TrimRightSplits(s[..n]);
      b := rest + [s[n]];
      assert s == s[..n] + [s[n]];
    } else {
      b := [];
    }
  }

  /** Stripping takes all the space from both ends and nothing else. */
  lemma StripExactly(text: string, core: string)
    ensures Strip(text) == core <==> Core(text, core)
  {
    hide IsSpace, TrimLeft, TrimRight;
    if Core(text, core) {
      var a, b :| Spaces(a) && Spaces(b) && text == a + core + b;
      if core == [] {
        assert Spaces(text) && text + "" == text;
        TrimLeftSkips(text, "");
        assert "" + "" == "";
        TrimRightSkips("", "");
      } else {
        assert text == a + (core + b);
        TrimLeftSkips(a, core + b);
        TrimRightSkips(core, b);
      }
    }
    if Strip(text) == core {
      var a := TrimLeftSplits(text);
      var rest := TrimLeft(text);
      var b := TrimRightSplits(rest);
      assert text == a + core + b;
      if core != [] { assert core[0] == rest[0]; }
    }
  }

  // ---- one character ----

  predicate AllOf(s: string, c: char) {
    forall i :: 0 <= i < |s| ==> s[i] == c
  }

  /** `core` is the text without this character around it. */
  ghost predicate Bare(text: string, core: string, c: char) {
    (exists a, b :: AllOf(a, c) && AllOf(b, c) && text == a + core + b) && (core == [] || (core[0] != c && core[|core| - 1] != c))
  }

  lemma {:induction false} LeftSkips(a: string, s: string, c: char)
    requires AllOf(a, c) && (s == [] || s[0] != c)
    ensures TrimLeftOf(a + s, c) == s
  {
    if a == [] {
      assert a + s == s;
    } else {
      assert (a + s)[1..] == a[1..] + s;
      LeftSkips(a[1..], s, c);
    }
  }

  lemma {:induction false} RightSkips(s: string, b: string, c: char)
    requires AllOf(b, c) && (s == [] || s[|s| - 1] != c)
    ensures TrimRightOf(s + b, c) == s
  {
    if b == [] {
      assert s + b == s;
    } else {
      assert (s + b)[..|s + b| - 1] == s + b[..|b| - 1];
      RightSkips(s, b[..|b| - 1], c);
    }
  }

  lemma {:induction false} LeftSplits(s: string, c: char) returns (a: string)
    ensures var t := TrimLeftOf(s, c); AllOf(a, c) && s == a + t && (t == [] || t[0] != c)
  {
    a := [];
    if s != [] && s[0] == c {
      var rest := LeftSplits(s[1..], c);
      a := [s[0]] + rest;
    }
  }

  lemma {:induction false} RightSplits(s: string, c: char) returns (b: string)
    ensures var t := TrimRightOf(s, c); AllOf(b, c) && s == t + b && (t == [] || t[|t| - 1] != c)
  {
    b := [];
    if s != [] && s[|s| - 1] == c {
      var rest := RightSplits(s[..|s| - 1], c);
      b := rest + [s[|s| - 1]];
    }
  }

  /** Stripping a character takes all of it from both ends and nothing else. */
  lemma StripOfExactly(text: string, core: string, c: char)
    ensures TrimRightOf(TrimLeftOf(text, c), c) == core <==> Bare(text, core, c)
  {
    hide TrimLeftOf, TrimRightOf;
    var rest := TrimLeftOf(text, c);
    var a := LeftSplits(text, c);
    var b := RightSplits(rest, c);
    if TrimRightOf(rest, c) == core {
      assert text == a + core + b;
      if core != [] { assert core[0] == rest[0]; }
    }
    if Bare(text, core, c) {
      var x, y :| AllOf(x, c) && AllOf(y, c) && text == x + core + y;
      if core == [] {
        assert text == x + y && text + [] == text && [] + [] == core;
        LeftSkips(text, [], c);
        RightSkips([], [], c);
      } else {
        assert text == x + (core + y);
        LeftSkips(x, core + y, c);
        RightSkips(core, y, c);
      }
    }
  }
}
