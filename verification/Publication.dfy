/** Publishing a generated bundle: write a staging directory, check it, move the previous
    generation to a backup, move the new one into place, and roll back when that fails.  Every
    file-system call may fail, and every state it leaves is remembered. */
module Publication {
  import opened Outcomes

  type Tree = map<string, seq<int>>

  datatype Path = Output | Staging(id: nat) | Backup(id: nat)

  type State = map<Path, Tree>

  datatype Look = Present | Missing | Unreadable
  datatype Made = Created | Exists | NotMade

  /** How `_write_bundle` ends: normally, with one of the two messages of a failed move, or with
      any other error. */
  datatype Ending = UpToDate | Published | RolledBack | BothFailed | OtherError

  /** One directory of a file system.  `fails` says which calls fail; `history` is every state
      since the object was made. */
  class Disk {
    var at: State
    var clock: nat
    const fails: nat -> bool
    ghost var history: seq<State>

    ghost predicate Valid()
      reads this
    {
      history != [] && history[|history| - 1] == at
    }

    constructor (at: State, fails: nat -> bool)
      ensures Valid() && this.at == at && history == [at]
    {
      this.at, this.clock, this.fails, history := at, 0, fails, [at];
    }

    /** A call that only looks. */
    method Tick() returns (ok: bool)
      requires Valid()
      modifies this`clock
      ensures Valid()
    {
      ok := !fails(clock);
      clock := clock + 1;
    }

    /** One change of the disk. */
    method Become(next: State)
      requires Valid()
      modifies this`at, this`history
      ensures Valid() && at == next && history == old(history) + [next]
    {
      at := next;
      history := history + [next];
    }

    /** `os.lstat` */
    method Lstat(p: Path) returns (r: Look)
      requires Valid()
      modifies this`clock
      ensures Valid() && (r.Present? ==> p in at) && (r.Missing? ==> p !in at)
    {
      var ok := Tick();
      r := if !ok then Unreadable else if p in at then Present else Missing;
    }

    /** `os.replace` of a directory: atomic, and refused over a directory that is not empty. */
    method Replace(source: Path, target: Path) returns (ok: bool)
      requires Valid() && source != target
      modifies this
      ensures Valid()
      ensures ok ==> source in old(at) && at == (old(at) - {source})[target := old(at)[source]]
      ensures ok ==> target !in old(at) || old(at)[target] == map[]
      ensures ok ==> history == old(history) + [at]
      ensures !ok ==> at == old(at) && history == old(history)
    {
      ok := Tick();
      if !ok || source !in at || (target in at && at[target] != map[]) {
        return false;
      }
      Become((at - {source})[target := at[source]]);
    }

    /** `os.mkdir` */
    method MakeDirectory(p: Path) returns (r: Made)
      requires Valid()
      modifies this
      ensures Valid()
      ensures r.Created? ==> p !in old(at) && at == old(at)[p := map[]] && history == old(history) + [at]
      ensures !r.Created? ==> at == old(at) && history == old(history)
    {
      var ok := Tick();
      if p in at { return Exists; }
      if !ok { return NotMade; }
      Become(at[p := map[]]);
      return Created;
    }

    /** Whether only what is at `p` has changed since `before`, and only through states like that. */
    ghost predicate OnlyTouched(p: Path, before: State, from: nat)
      reads this
    {
      from <= |history| && (forall k :: from <= k < |history| ==> SameBut(p, history[k], before)) && SameBut(p, at, before)
    }

    /** One change of what is at `p`, when only that has changed so far. */
    method Touch(p: Path, next: State, ghost before: State, ghost from: nat)
      requires Valid() && OnlyTouched(p, before, from) && SameBut(p, next, at)
      modifies this`at, this`history
      ensures Valid() && at == next && history == old(history) + [next] && OnlyTouched(p, before, from)
    {
      hide SameBut;
      SameButTransitive(p, next, at, before);
      Become(next);
    }

    /** Creates one file exclusively, then fills it; a file that cannot be filled is unlinked, if
        that works. */
    method WriteFile(p: Path, name: string, data: seq<int>, ghost before: State, ghost from: nat) returns (ok: bool)
      requires Valid() && p in at && OnlyTouched(p, before, from)
      modifies this
      ensures Valid() && old(history) <= history && p in at && OnlyTouched(p, before, from)
      ensures ok ==> at[p] == old(at)[p][name := data]
    {
      hide SameBut;
      ok := Tick();
      if !ok || name in at[p] {
        return false;
      }
      SetTouches(at, p, at[p][name := []]);
      Touch(p, at[p := at[p][name := []]], before, from);
      ok := Tick();
      if ok {
        SetTouches(at, p, at[p][name := data]);
        Touch(p, at[p := at[p][name := data]], before, from);
      } else {
        var unlinked := Tick();
        if unlinked {
          SetTouches(at, p, at[p] - {name});
          Touch(p, at[p := at[p] - {name}], before, from);
        }
      }
    }

    method RemoveOne(p: Path, ghost before: State, ghost from: nat)
      requires Valid() && p in at && at[p] != map[] && OnlyTouched(p, before, from)
      modifies this`at, this`history
      ensures Valid() && p in at && |at[p]| < |old(at)[p]|
      ensures OnlyTouched(p, before, from) && old(history) <= history
    {
      hide SameBut, OnlyTouched;
      var name :| name in at[p].Keys;
      Smaller(at[p], name);
      SetTouches(at, p, at[p] - {name});
      Touch(p, at[p := at[p] - {name}], before, from);
    }

    /** `_remove_generated_tree`: file by file, then the directory. */
    method RemoveTree(p: Path) returns (ok: bool)
      requires Valid()
      modifies this
      ensures Valid() && old(history) <= history && OnlyTouched(p, old(at), |old(history)|)
      ensures ok ==> p !in at
    {
      hide SameBut;
      ghost var before, from := at, |history|;
      SameButSame(p, at);
      var look := Lstat(p);
      if !look.Present? {
        return look.Missing?;
      }
      while at[p] != map[]
        invariant Valid() && old(history) <= history && p in at && OnlyTouched(p, before, from)
        decreases |at[p]|
      {
        ok := Tick();
        if !ok { return false; }
        RemoveOne(p, before, from);
      }
      ok := Tick();
      if ok {
        DropTouches(at, p);
        Touch(p, at - {p}, before, from);
      }
    }
  }

  /** The two states differ at most in what is at `p`. */
  predicate SameBut(p: Path, s: State, t: State) {
    s - {p} == t - {p}
  }

  lemma SameButSame(p: Path, s: State)
    ensures SameBut(p, s, s)
  {
  }

  lemma SameButTransitive(p: Path, s: State, t: State, u: State)
    requires SameBut(p, s, t) && SameBut(p, t, u)
    ensures SameBut(p, s, u)
  {
  }

  lemma SetTouches(s: State, p: Path, t: Tree)
    ensures SameBut(p, s[p := t], s)
  {
    assert s[p := t] - {p} == s - {p};
  }

  lemma DropTouches(s: State, p: Path)
    ensures SameBut(p, s - {p}, s)
  {
    assert s - {p} - {p} == s - {p};
  }

  lemma Smaller(t: Tree, name: string)
    requires name in t
    ensures |t - {name}| < |t|
  {
    assert t.Keys == (t - {name}).Keys + {name};
  }

  /** `_write_staged_bundle` */
  method WriteStaged(disk: Disk, staging: Path, files: Tree) returns (ok: bool)
    requires disk.Valid() && staging in disk.at && disk.at[staging] == map[]
    modifies disk
    ensures disk.Valid() && old(disk.history) <= disk.history && staging in disk.at
    ensures disk.OnlyTouched(staging, old(disk.at), |old(disk.history)|)
    ensures ok ==> disk.at[staging] == files
  {
    hide SameBut, Written;
    ghost var before, from := disk.at, |disk.history|;
    SameButSame(staging, disk.at);
    var left := files.Keys;
    NothingWritten(files);
    while left != {}
      invariant disk.Valid() && old(disk.history) <= disk.history && staging in disk.at
      invariant disk.OnlyTouched(staging, before, from)
      invariant left <= files.Keys && disk.at[staging] == Written(files, left)
      decreases |left|
    {
      var name :| name in left;
      ok := disk.WriteFile(staging, name, files[name], before, from);
      if !ok { return; }
      WrittenMore(files, left, name);
      left := left - {name};
    }
    AllWritten(files);
    ok := disk.Tick();
  }

  /** The files that are not left to write. */
  function Written(files: Tree, left: set<string>): Tree {
    map name | name in files.Keys - left :: files[name]
  }

  lemma NothingWritten(files: Tree)
    ensures Written(files, files.Keys) == map[]
  {
  }

  lemma WrittenMore(files: Tree, left: set<string>, name: string)
    requires name in left && left <= files.Keys
    ensures Written(files, left)[name := files[name]] == Written(files, left - {name})
  {
  }

  lemma AllWritten(files: Tree)
    ensures Written(files, {}) == files
  {
  }

  // ---- safety ----

  function Lookup(s: State, p: Path): Option<Tree> {
    if p in s then Some(s[p]) else None
  }

  /** Never a partial generation at the output, and the previous one, if any, is there or at the
      backup unless the new one is at the output. */
  predicate Safe(s: State, previous: Option<Tree>, wanted: Tree, backup: Path) {
    && (Output in s ==> s[Output] == wanted || Some(s[Output]) == previous)
    && (previous.Some? ==> Output in s || Lookup(s, backup) == previous)
  }

  ghost predicate AllSafe(h: seq<State>, from: nat, previous: Option<Tree>, wanted: Tree, backup: Path) {
    forall k :: from <= k < |h| ==> Safe(h[k], previous, wanted, backup)
  }

  lemma TouchedSafe(disk: Disk, p: Path, before: State, from: nat, previous: Option<Tree>, wanted: Tree, backup: Path)
    requires disk.OnlyTouched(p, before, from) && p != Output && Safe(before, previous, wanted, backup)
    requires p != backup || Lookup(before, Output) == Some(wanted)
    ensures AllSafe(disk.history, from, previous, wanted, backup) && Safe(disk.at, previous, wanted, backup)
    ensures Lookup(disk.at, Output) == Lookup(before, Output)
  {
    forall k | from <= k < |disk.history| ensures Safe(disk.history[k], previous, wanted, backup) {
      TouchedState(disk.history[k], p, before, previous, wanted, backup);
    }
    TouchedState(disk.at, p, before, previous, wanted, backup);
  }

  lemma TouchedState(s: State, p: Path, before: State, previous: Option<Tree>, wanted: Tree, backup: Path)
    requires SameBut(p, s, before) && p != Output && Safe(before, previous, wanted, backup)
    requires p != backup || Lookup(before, Output) == Some(wanted)
    ensures Safe(s, previous, wanted, backup) && Lookup(s, Output) == Lookup(before, Output)
  {
    SameElsewhere(s, before, p, Output);
    if p != backup { SameElsewhere(s, before, p, backup); }
  }

  /** `_publish_staged_bundle`; `previous` is the generation at the output when it starts. */
  method PublishStaged(disk: Disk, staging: Path, backup: Path) returns (r: Ending)
    requires disk.Valid() && staging.Staging? && backup.Backup? && staging in disk.at
    modifies disk
    ensures disk.Valid() && old(disk.history) <= disk.history && !r.UpToDate?
    ensures var previous, wanted := Lookup(old(disk.at), Output), old(disk.at)[staging];
      && AllSafe(disk.history, |old(disk.history)|, previous, wanted, backup) && Safe(disk.at, previous, wanted, backup)
      && (r.Published? ==> Lookup(disk.at, Output) == Some(wanted) && staging !in disk.at && (previous.Some? ==> backup !in disk.at))
      && (r.RolledBack? ==> Lookup(disk.at, Output) == previous)
      && (r.BothFailed? ==> previous.Some? && Output !in disk.at && Lookup(disk.at, backup) == previous)
  {
    hide Safe, AllSafe;
    ghost var previous, wanted := Lookup(disk.at, Output), disk.at[staging];
    var movedPrevious, early := MoveIntoPlace(disk, staging, backup);
    if early.Some? { return early.value; }
    ghost var published, from, sofar := disk.at, |disk.history|, disk.history;
    var synced := disk.Tick();
    if !synced { return OtherError; }
    if movedPrevious {
      var removed := disk.RemoveTree(backup);
      TouchedSafe(disk, backup, published, from, previous, wanted, backup);
      assert disk.history[..from] == sofar;
      Joined(disk.history, |old(disk.history)|, from, previous, wanted, backup);
      SameElsewhere(disk.at, published, backup, staging);
      if !removed { return OtherError; }
    }
    return Published;
  }

  /** Its two moves, and the move back; no ending yet when the new generation is in place. */
  method MoveIntoPlace(disk: Disk, staging: Path, backup: Path) returns (movedPrevious: bool, early: Option<Ending>)
    requires disk.Valid() && staging.Staging? && backup.Backup? && staging in disk.at
    modifies disk
    ensures disk.Valid() && old(disk.history) <= disk.history
    ensures var previous, wanted := Lookup(old(disk.at), Output), old(disk.at)[staging];
      && AllSafe(disk.history, |old(disk.history)|, previous, wanted, backup) && Safe(disk.at, previous, wanted, backup)
      && (early.None? ==> Lookup(disk.at, Output) == Some(wanted) && staging !in disk.at && (movedPrevious <==> previous.Some?))
      && (early.Some? ==> early.value.OtherError? || early.value.RolledBack? || early.value.BothFailed?)
      && (early.Some? && early.value.RolledBack? ==> Lookup(disk.at, Output) == previous)
      && (early.Some? && early.value.BothFailed? ==> previous.Some? && Output !in disk.at && Lookup(disk.at, backup) == previous)
  {
    ghost var previous, wanted := Lookup(disk.at, Output), disk.at[staging];
    movedPrevious := false;
    var look := disk.Lstat(Output);
    if look.Unreadable? {
      return false, Some(OtherError);
    }
    if look.Present? {
      movedPrevious := disk.Replace(Output, backup);
      if !movedPrevious { return false, Some(OtherError); }
    }
    assert staging in disk.at && disk.at[staging] == wanted && Output !in disk.at;
    var placed := disk.Replace(staging, Output);
    if !placed {
      if movedPrevious {
        var restored := disk.Replace(backup, Output);
        if !restored { return true, Some(BothFailed); }
      }
      return movedPrevious, Some(RolledBack);
    }
    return movedPrevious, None;
  }

  lemma SameElsewhere(s: State, t: State, p: Path, q: Path)
    requires SameBut(p, s, t) && q != p
    ensures Lookup(s, q) == Lookup(t, q)
  {
    assert (q in s) == (q in s - {p}) && (q in t) == (q in t - {p});
    assert q in s ==> s[q] == (s - {p})[q];
    assert q in t ==> t[q] == (t - {p})[q];
  }

  lemma Joined(h: seq<State>, from: nat, mid: nat, previous: Option<Tree>, wanted: Tree, backup: Path)
    requires from <= mid <= |h| && AllSafe(h[..mid], from, previous, wanted, backup) && AllSafe(h, mid, previous, wanted, backup)
    ensures AllSafe(h, from, previous, wanted, backup)
  {
    forall k | from <= k < |h| ensures Safe(h[k], previous, wanted, backup) {
      if k < mid { assert h[..mid][k] == h[k]; }
    }
  }

  /** `_create_staging_directory`: up to 32 names. */
  method CreateStaging(disk: Disk, names: nat -> nat) returns (staging: Option<Path>)
    requires disk.Valid()
    modifies disk
    ensures disk.Valid() && old(disk.history) <= disk.history
    ensures staging.None? ==> disk.at == old(disk.at) && disk.history == old(disk.history)
    ensures staging.Some? ==> staging.value.Staging? && staging.value !in old(disk.at)
    ensures staging.Some? ==> disk.at == old(disk.at)[staging.value := map[]] && disk.history == old(disk.history) + [disk.at]
  {
    for attempt := 0 to 32
      invariant disk.Valid() && disk.at == old(disk.at) && disk.history == old(disk.history)
    {
      var candidate := Staging(names(attempt));
      var made := disk.MakeDirectory(candidate);
      if made.Created? { return Some(candidate); }
      if made.NotMade? { return None; }
    }
    return None;
  }

  /** The `try` block of `_write_bundle`: fill the staging directory, check it, publish it. */
  method FillAndPublish(disk: Disk, staging: Path, backup: Path, files: Tree) returns (r: Ending)
    requires disk.Valid() && staging.Staging? && backup.Backup? && staging in disk.at && disk.at[staging] == map[]
    modifies disk
    ensures disk.Valid() && old(disk.history) <= disk.history && !r.UpToDate?
    ensures var previous := Lookup(old(disk.at), Output);
      Safe(old(disk.at), previous, files, backup) ==>
        AllSafe(disk.history, |old(disk.history)|, previous, files, backup) && Safe(disk.at, previous, files, backup)
    ensures Ended(r, Lookup(old(disk.at), Output), files, backup, disk.at)
  {
    ghost var previous, before, start := Lookup(disk.at, Output), disk.at, |disk.history|;
    var ok := WriteStaged(disk, staging, files);
    SameElsewhere(disk.at, before, staging, Output);
    ghost var mid, filled := |disk.history|, disk.history;
    if Safe(before, previous, files, backup) {
      TouchedSafe(disk, staging, before, start, previous, files, backup);
    }
    if !ok { return OtherError; }
    ok := disk.Tick();
    if !ok || disk.at[staging] != files { return OtherError; }
    r := PublishStaged(disk, staging, backup);
    assert disk.history[..mid] == filled;
    if Safe(before, previous, files, backup) {
      Joined(disk.history, start, mid, previous, files, backup);
    }
  }

  /** What each ending says about the disk. */
  predicate Ended(r: Ending, previous: Option<Tree>, files: Tree, backup: Path, s: State) {
    && (r.Published? ==> Lookup(s, Output) == Some(files) && (previous.Some? ==> backup !in s))
    && (r.RolledBack? ==> Lookup(s, Output) == previous)
    && (r.BothFailed? ==> previous.Some? && Output !in s && Lookup(s, backup) == previous)
  }

  lemma StartSafe(s: State, files: Tree, backup: Path)
    ensures Safe(s, Lookup(s, Output), files, backup)
  {
  }

  lemma StagingSafe(s: State, staging: Path, previous: Option<Tree>, files: Tree, backup: Path)
    requires Safe(s, previous, files, backup) && staging.Staging? && backup.Backup?
    ensures Safe(s[staging := map[]], previous, files, backup) && Lookup(s[staging := map[]], Output) == Lookup(s, Output)
  {
    hide Safe;
    SetTouches(s, staging, map[]);
    TouchedState(s[staging := map[]], staging, s, previous, files, backup);
  }

  /** `_write_bundle`: whatever calls fail, no state it passes through loses the previous
      generation before the new one is in place, and its ending says which one is there. */
  method WriteBundle(disk: Disk, names: nat -> nat, backup: Path, files: Tree) returns (r: Ending)
    requires disk.Valid() && backup.Backup?
    modifies disk
    ensures disk.Valid() && old(disk.history) <= disk.history
    ensures AllSafe(disk.history, |old(disk.history)|, Lookup(old(disk.at), Output), files, backup)
    ensures Safe(disk.at, Lookup(old(disk.at), Output), files, backup)
    ensures r.UpToDate? ==> Lookup(disk.at, Output) == Some(files) && disk.at == old(disk.at)
    ensures Ended(r, Lookup(old(disk.at), Output), files, backup, disk.at)
  {
    hide Safe;
    ghost var previous, start := Lookup(disk.at, Output), |disk.history|;
    StartSafe(disk.at, files, backup);
    var look := disk.Lstat(Output);
    if look.Unreadable? { return OtherError; }
    if look.Present? {
      var readable := disk.Tick();
      if !readable { return OtherError; }
      if disk.at[Output] == files { return UpToDate; }
    }
    var made := CreateStaging(disk, names);
    if made.None? { return OtherError; }
    StagingSafe(old(disk.at), made.value, previous, files, backup);
    r := PublishNew(disk, made.value, backup, files, previous, start);
  }

  /** The rest of `_write_bundle`, once there is a staging directory. */
  method PublishNew(disk: Disk, staging: Path, backup: Path, files: Tree, ghost previous: Option<Tree>, ghost start: nat) returns (r: Ending)
    requires disk.Valid() && staging.Staging? && backup.Backup? && staging in disk.at && disk.at[staging] == map[]
    requires previous == Lookup(disk.at, Output) && Safe(disk.at, previous, files, backup)
    requires start <= |disk.history| && AllSafe(disk.history, start, previous, files, backup)
    modifies disk
    ensures disk.Valid() && old(disk.history) <= disk.history && !r.UpToDate?
    ensures AllSafe(disk.history, start, previous, files, backup) && Safe(disk.at, previous, files, backup)
    ensures Ended(r, previous, files, backup, disk.at)
  {
    hide Safe, AllSafe;
    ghost var created := disk.history;
    r := FillAndPublish(disk, staging, backup, files);
    assert disk.history[..|created|] == created;
    Joined(disk.history, start, |created|, previous, files, backup);
    ghost var mid, tried := |disk.history|, disk.history;
    var clean := CleanUp(disk, staging, previous, files, backup);
    assert disk.history[..mid] == tried;
    Joined(disk.history, start, mid, previous, files, backup);
    if !clean { return OtherError; }
  }

  /** The `finally` block: what is left of the staging directory is removed. */
  method CleanUp(disk: Disk, staging: Path, ghost previous: Option<Tree>, ghost files: Tree, ghost backup: Path) returns (ok: bool)
    requires disk.Valid() && staging.Staging? && backup.Backup? && Safe(disk.at, previous, files, backup)
    modifies disk
    ensures disk.Valid() && old(disk.history) <= disk.history
    ensures AllSafe(disk.history, |old(disk.history)|, previous, files, backup) && Safe(disk.at, previous, files, backup)
    ensures Lookup(disk.at, Output) == Lookup(old(disk.at), Output) && Lookup(disk.at, backup) == Lookup(old(disk.at), backup)
  {
    ghost var before, start := disk.at, |disk.history|;
    var look := disk.Lstat(staging);
    if !look.Present? {
      return look.Missing?;
    }
    ok := disk.RemoveTree(staging);
    TouchedSafe(disk, staging, before, start, previous, files, backup);
    SameElsewhere(disk.at, before, staging, backup);
  }
}
