/** The check that no two release paths differ only in letter case, at any depth, and that no
    file stands where another path has a directory. */
module PortableAliases {
  import opened Bytes
  import opened Sorting

  type Parts = seq<bytes>

  /** Case folding of one path component. */
  type Fold = bytes -> bytes

  function Folded(parts: Parts, fold: Fold): (r: Parts)
    ensures |r| == |parts| && forall i :: 0 <= i < |r| ==> r[i] == fold(parts[i])
  {
    seq(|parts|, i requires 0 <= i < |parts| => fold(parts[i]))
  }

  /** The first `n` components of path `k`. */
  predicate Part(paths: seq<Parts>, k: int, n: int) {
    0 <= k < |paths| && 1 <= n <= |paths[k]|
  }

  function Start(paths: seq<Parts>, k: int, n: int): Parts
    requires Part(paths, k, n)
  {
    paths[k][..n]
  }

  /** Every directory and file is spelled in one way. */
  ghost predicate OneSpelling(paths: seq<Parts>, fold: Fold) {
    forall a, m, b, n :: Part(paths, a, m) && Part(paths, b, n) && Folded(Start(paths, a, m), fold) == Folded(Start(paths, b, n), fold) ==>
      Start(paths, a, m) == Start(paths, b, n)
  }

  /** No path, folded, is a directory of a path. */
  ghost predicate NoFileIsDirectory(paths: seq<Parts>, fold: Fold) {
    forall a, m, b :: Part(paths, a, m) && m < |paths[a]| && 0 <= b < |paths| ==> Folded(Start(paths, a, m), fold) != Folded(paths[b], fold)
  }

  predicate NoCaseTwins(paths: seq<Parts>, fold: Fold) {
    forall a, b :: 0 <= a < b < |paths| ==> Folded(paths[a], fold) != Folded(paths[b], fold)
  }

  function FoldedPaths(paths: seq<Parts>, fold: Fold): (r: seq<Parts>)
    ensures |r| == |paths| && forall i :: 0 <= i < |r| ==> r[i] == Folded(paths[i], fold)
  {
    seq(|paths|, i requires 0 <= i < |paths| => Folded(paths[i], fold))
  }

  lemma {:induction false} SizeCountsDistinct(s: seq<Parts>)
    ensures |set x | x in s| <= |s|
    ensures |set x | x in s| == |s| <==> Distinct(s)
  {
    if s != [] {
      var n := |s| - 1;
      var rest, last := s[..n], s[n];
      var few, all := set x | x in rest, set x | x in s;
      SizeCountsDistinct(rest);
      assert s == rest + [last] && all == few + {last};
      if last in rest {
        assert all == few;
        var i :| 0 <= i < n && s[i] == last;
      }
    }
  }

  /** Whether the loops have already been at this start of a path. */
  predicate Seen(paths: seq<Parts>, a: int, m: int, k: int, n: int) {
    Part(paths, a, m) && (a < k || (a == k && m <= n))
  }

  /** The dictionary holds the spelling of every start seen so far, and nothing else. */
  ghost predicate Holds(spellings: map<Parts, Parts>, paths: seq<Parts>, k: nat, n: nat, fold: Fold) {
    && (forall a, m :: Seen(paths, a, m, k, n) ==>
          Folded(Start(paths, a, m), fold) in spellings && spellings[Folded(Start(paths, a, m), fold)] == Start(paths, a, m))
    && (forall key :: key in spellings ==>
          exists a, m :: Seen(paths, a, m, k, n) && Folded(Start(paths, a, m), fold) == key && Start(paths, a, m) == spellings[key])
  }

  /** `_portable_component_aliases`; false where it raises. */
  method PortableComponentAliases(paths: seq<Parts>, fold: Fold) returns (ok: bool)
    ensures ok <==> NoCaseTwins(paths, fold) && OneSpelling(paths, fold) && NoFileIsDirectory(paths, fold)
  {
    hide NoFileIsDirectory, OneSpelling, Holds, Folded, Start;
    var folded := FoldedPaths(paths, fold);
    var fullPaths := set f | f in folded;
    SizeCountsDistinct(folded);
    assert forall b :: 0 <= b < |paths| ==> folded[b] in fullPaths;
    if |fullPaths| != |paths| {
      return false;
    }
    var spellings: map<Parts, Parts> := map[];
    NothingHeld(paths, fold);
    for k := 0 to |paths|
      invariant Holds(spellings, paths, k, 0, fold)
      invariant forall a, m :: Seen(paths, a, m, k, 0) && m < |paths[a]| ==> Folded(Start(paths, a, m), fold) !in fullPaths
    {
      for n := 1 to |paths[k]| + 1
        invariant Holds(spellings, paths, k, n - 1, fold)
        invariant forall a, m :: Seen(paths, a, m, k, n - 1) && m < |paths[a]| ==> Folded(Start(paths, a, m), fold) !in fullPaths
      {
        var spelling := Start(paths, k, n);
        var key := Folded(spelling, fold);
        if key in spellings && spellings[key] != spelling {
          TwoSpellings(spellings, paths, k, n, fold);
          return false;
        }
        HoldsOneMore(spellings, paths, k, n, fold);
        spellings := spellings[key := spelling];
        if n < |paths[k]| && key in fullPaths {
          var b :| 0 <= b < |folded| && folded[b] == key;
          FileIsDirectory(paths, k, n, b, fold);
          return false;
        }
      }
      NextPath(spellings, paths, k, fold);
    }
    AllSeen(spellings, paths, fold);
    assert NoFileIsDirectory(paths, fold) by { NoneIsDirectory(paths, fullPaths, fold); }
    return true;
  }

  lemma NothingHeld(paths: seq<Parts>, fold: Fold)
    ensures Holds(map[], paths, 0, 0, fold)
  {
  }

  lemma TwoSpellings(spellings: map<Parts, Parts>, paths: seq<Parts>, k: nat, n: nat, fold: Fold)
    requires Part(paths, k, n) && Holds(spellings, paths, k, n - 1, fold)
    requires var key := Folded(Start(paths, k, n), fold); key in spellings && spellings[key] != Start(paths, k, n)
    ensures !OneSpelling(paths, fold)
  {
    hide Folded, Start;
  }

  lemma HoldsOneMore(spellings: map<Parts, Parts>, paths: seq<Parts>, k: nat, n: nat, fold: Fold)
    requires Part(paths, k, n) && Holds(spellings, paths, k, n - 1, fold)
    requires var key := Folded(Start(paths, k, n), fold); key in spellings ==> spellings[key] == Start(paths, k, n)
    ensures Holds(spellings[Folded(Start(paths, k, n), fold) := Start(paths, k, n)], paths, k, n, fold)
  {
    hide Folded, Start;
    var key := Folded(Start(paths, k, n), fold);
    var more := spellings[key := Start(paths, k, n)];
    assert Seen(paths, k, n, k, n);
    forall a, m | Seen(paths, a, m, k, n)
      ensures Folded(Start(paths, a, m), fold) in more && more[Folded(Start(paths, a, m), fold)] == Start(paths, a, m)
    {
      if !(a == k && m == n) { assert Seen(paths, a, m, k, n - 1); }
    }
    forall x | x in more
      ensures exists a, m :: Seen(paths, a, m, k, n) && Folded(Start(paths, a, m), fold) == x && Start(paths, a, m) == more[x]
    {
      if x != key {
        var a, m :| Seen(paths, a, m, k, n - 1) && Folded(Start(paths, a, m), fold) == x && Start(paths, a, m) == spellings[x];
        assert Seen(paths, a, m, k, n);
      }
    }
  }

  lemma NextPath(spellings: map<Parts, Parts>, paths: seq<Parts>, k: nat, fold: Fold)
    requires k < |paths| && Holds(spellings, paths, k, |paths[k]|, fold)
    ensures Holds(spellings, paths, k + 1, 0, fold)
    ensures forall a, m :: Seen(paths, a, m, k + 1, 0) <==> Seen(paths, a, m, k, |paths[k]|)
  {
    hide Folded, Start;
  }

  lemma AllSeen(spellings: map<Parts, Parts>, paths: seq<Parts>, fold: Fold)
    requires Holds(spellings, paths, |paths|, 0, fold)
    ensures OneSpelling(paths, fold)
  {
    hide Folded, Start;
    forall a, m, b, n | Part(paths, a, m) && Part(paths, b, n) && Folded(Start(paths, a, m), fold) == Folded(Start(paths, b, n), fold)
      ensures Start(paths, a, m) == Start(paths, b, n)
    {
      assert Seen(paths, a, m, |paths|, 0) && Seen(paths, b, n, |paths|, 0);
    }
  }

  lemma FileIsDirectory(paths: seq<Parts>, k: nat, n: nat, b: nat, fold: Fold)
    requires Part(paths, k, n) && n < |paths[k]| && b < |paths| && Folded(Start(paths, k, n), fold) == Folded(paths[b], fold)
    ensures !NoFileIsDirectory(paths, fold)
  {
  }

  lemma NoneIsDirectory(paths: seq<Parts>, fullPaths: set<Parts>, fold: Fold)
    requires forall b :: 0 <= b < |paths| ==> Folded(paths[b], fold) in fullPaths
    requires forall a, m :: Seen(paths, a, m, |paths|, 0) && m < |paths[a]| ==> Folded(Start(paths, a, m), fold) !in fullPaths
    ensures NoFileIsDirectory(paths, fold)
  {
    hide Folded, Start;
    forall a, m, b | Part(paths, a, m) && m < |paths[a]| && 0 <= b < |paths|
      ensures Folded(Start(paths, a, m), fold) != Folded(paths[b], fold)
    {
      assert Seen(paths, a, m, |paths|, 0);
    }
  }
}
