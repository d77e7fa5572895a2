/** Preparing the private CI runtime: a directory stamped with an owner receipt when it is made
    and with a contract receipt when it is complete.  Any step may fail or be the last before a
    crash; making a receipt and removing the directory are single steps, and the preparation
    lock keeps runs apart. */
module RuntimeReceipts {
  import opened Outcomes

  /** What the `venv` directory holds. */
  datatype Venv = NoVenv | EmptyVenv | Incomplete | Complete(siteVisible: bool)

  datatype Root = Root(owner: bool, contract: Option<string>, home: bool, tmp: bool, venv: Venv, node: bool)

  /** A directory just made. */
  const BARE := Root(false, None, false, false, NoVenv, false)

  datatype Weather = Fine | Fails | Crashes

  datatype Ending = Ready | Raised | Crashed

  /** What a run did to the directory, in order. */
  datatype Event =
    | Made(run: nat)
    | Removed(run: nat, root: Root)
    | Stamped(run: nat)
    | Validated(run: nat, venv: Venv)
    | ContractWritten(run: nat, payload: string, siteVisible: bool)

  datatype Request = Request(contract: Option<string>, siteVisible: bool)

  // ---- what every run keeps ----

  /** A contract receipt stands only beside a complete environment. */
  predicate Sane(root: Option<Root>) {
    root.Some? && root.value.contract.Some? ==> root.value.venv.Complete?
  }

  /** No directory, one with a valid owner receipt, or one a run made and could not stamp. */
  predicate Ours(root: Option<Root>) {
    root.None? || root.value.owner || root.value == BARE
  }

  /** This event happened before `i`, and no directory was removed since. */
  ghost predicate Since(trace: seq<Event>, i: nat, e: Event)
    requires i <= |trace|
  {
    exists j :: 0 <= j < i && trace[j] == e && forall k :: j < k < i ==> !trace[k].Removed?
  }

  /** A directory is removed only with a valid owner receipt, or by the run that made it. */
  ghost predicate RemovalsJustified(trace: seq<Event>) {
    forall i :: 0 <= i < |trace| && trace[i].Removed? ==> trace[i].root.owner || Since(trace, i, Made(trace[i].run))
  }

  /** A run writes the contract receipt only after it has seen a complete environment, of the
      isolation mode it asked for, in the directory that is still there. */
  ghost predicate ContractsEarned(trace: seq<Event>) {
    forall i :: 0 <= i < |trace| && trace[i].ContractWritten? ==>
      Since(trace, i, Validated(trace[i].run, Complete(trace[i].siteVisible)))
  }

  ghost predicate Trusted(trace: seq<Event>) {
    RemovalsJustified(trace) && ContractsEarned(trace)
  }

  /** All events so far belong to earlier runs. */
  predicate Earlier(trace: seq<Event>, run: nat) {
    forall i :: 0 <= i < |trace| ==> trace[i].run < run
  }

  lemma SinceStays(trace: seq<Event>, e: Event, i: nat, x: Event)
    requires i <= |trace|
    ensures Since(trace + [e], i, x) <==> Since(trace, i, x)
  {
    var more := trace + [e];
    assert forall k :: 0 <= k < i ==> more[k] == trace[k];
  }

  /** The rules survive an event that keeps them. */
  lemma TrustedMore(trace: seq<Event>, e: Event)
    requires Trusted(trace)
    requires e.Removed? ==> e.root.owner || Since(trace, |trace|, Made(e.run))
    requires e.ContractWritten? ==> Since(trace, |trace|, Validated(e.run, Complete(e.siteVisible)))
    ensures Trusted(trace + [e])
  {
    hide Since;
    var more := trace + [e];
    forall i | 0 <= i < |more| && more[i].Removed? ensures more[i].root.owner || Since(more, i, Made(more[i].run)) {
      SinceStays(trace, e, i, Made(more[i].run));
      assert i < |trace| ==> more[i] == trace[i];
    }
    forall i | 0 <= i < |more| && more[i].ContractWritten?
      ensures Since(more, i, Validated(more[i].run, Complete(more[i].siteVisible)))
    {
      SinceStays(trace, e, i, Validated(more[i].run, Complete(more[i].siteVisible)));
      assert i < |trace| ==> more[i] == trace[i];
    }
  }

  /** What has happened since stays so until a removal. */
  lemma SinceNow(trace: seq<Event>, e: Event, x: Event)
    ensures !e.Removed? && Since(trace, |trace|, x) ==> Since(trace + [e], |trace| + 1, x)
    ensures Since(trace + [e], |trace| + 1, e)
  {
    var more := trace + [e];
    assert more[|trace|] == e;
    if !e.Removed? && Since(trace, |trace|, x) {
      var j :| 0 <= j < |trace| && trace[j] == x && forall k :: j < k < |trace| ==> !trace[k].Removed?;
      assert more[j] == x;
    }
  }

  // ---- what a run without faults does ----

  /** Whether the environment can be used or built. */
  predicate Usable(venv: Venv, siteVisible: bool) {
    venv.NoVenv? || venv.EmptyVenv? || venv == Complete(siteVisible)
  }

  /** The guard a request meets: an owned directory with another contract is rebuilt, one with
      this contract must be usable, and one without a valid owner receipt is refused. */
  predicate Repairable(root: Option<Root>, q: Request) {
    if root.None? then true
    else if q.contract.None? then Usable(root.value.venv, q.siteVisible)
    else root.value.owner && (root.value.contract != q.contract || Usable(root.value.venv, q.siteVisible))
  }

  /** A prepared runtime for this request. */
  predicate Prepared(root: Option<Root>, q: Request) {
    && root.Some? && root.value.home && root.value.tmp && root.value.node && root.value.venv == Complete(q.siteVisible)
    && (q.contract.Some? ==> root.value.owner && root.value.contract == q.contract)
  }

  class Runtime {
    var root: Option<Root>
    var clock: nat
    const weather: nat -> Weather
    ghost var trace: seq<Event>

    constructor (root: Option<Root>, weather: nat -> Weather)
      ensures this.root == root && clock == 0 && trace == [] && this.weather == weather
    {
      this.root, clock, this.weather, trace := root, 0, weather, [];
    }

    /** No fault from now on. */
    ghost predicate Calm()
      reads this
    {
      forall t :: t >= clock ==> weather(t).Fine?
    }

    method Step() returns (w: Weather)
      modifies this`clock
      ensures clock == old(clock) + 1 && w == weather(old(clock))
    {
      w := weather(clock);
      clock := clock + 1;
    }

    ghost method Note(e: Event)
      requires Trusted(trace)
      requires e.Removed? ==> e.root.owner || Since(trace, |trace|, Made(e.run))
      requires e.ContractWritten? ==> Since(trace, |trace|, Validated(e.run, Complete(e.siteVisible)))
      modifies this`trace
      ensures trace == old(trace) + [e] && Trusted(trace) && Since(trace, |trace|, e)
      ensures forall x :: !e.Removed? && Since(old(trace), |old(trace)|, x) ==> Since(trace, |trace|, x)
    {
      hide Since, Trusted;
      TrustedMore(trace, e);
      SinceNow(trace, e, e);
      forall x { SinceNow(trace, e, x); }
      trace := trace + [e];
    }

    /** `remove_private_directory` */
    method RemoveDirectory(run: nat) returns (w: Weather)
      requires root.Some? && Trusted(trace) && (root.value.owner || Since(trace, |trace|, Made(run)))
      modifies this
      ensures Trusted(trace) && Grown(old(trace), trace, run)
      ensures clock == old(clock) + 1 && w == weather(old(clock))
      ensures root == if w.Fine? then None else old(root)
    {
      hide Since, Trusted;
      w := Step();
      if w.Fine? {
        Note(Removed(run, root.value));
        root := None;
      }
    }

    /** `_private_directory` on the root itself. */
    method MakeRoot(run: nat) returns (w: Weather)
      requires Trusted(trace)
      modifies this
      ensures Trusted(trace) && Grown(old(trace), trace, run)
      ensures clock == old(clock) + 1 && w == weather(old(clock))
      ensures w.Fine? ==> root == if old(root).None? then Some(BARE) else old(root)
      ensures w.Fine? && old(root).None? ==> Since(trace, |trace|, Made(run))
      ensures !w.Fine? ==> root == old(root)
    {
      hide Since, Trusted;
      w := Step();
      if w.Fine? && root.None? {
        Note(Made(run));
        root := Some(BARE);
      }
    }

    /** The owner receipt of a directory this run has made; when it cannot be written the
        directory is removed again, if that works. */
    method StampOwner(run: nat) returns (w: Weather)
      requires root == Some(BARE) && Trusted(trace) && Since(trace, |trace|, Made(run))
      modifies this
      ensures Trusted(trace) && Grown(old(trace), trace, run) && clock > old(clock)
      ensures w.Fine? ==> root == Some(BARE.(owner := true)) && clock == old(clock) + 1
      ensures !w.Fine? ==> root == Some(BARE) || root == None
      ensures w.Fine? <==> weather(old(clock)).Fine?
      ensures weather(old(clock)).Crashes? ==> w.Crashes? && root == Some(BARE)
    {
      hide Since, Trusted;
      w := Step();
      if w.Fine? {
        Note(Stamped(run));
        root := Some(BARE.(owner := true));
      } else if w.Fails? {
        var removed := RemoveDirectory(run);
        if removed.Crashes? { w := Crashes; }
      }
    }

    /** How an interrupted run ends. */
    static function Stopped(w: Weather): (r: Ending)
      requires !w.Fine?
      ensures !r.Ready? && (w.Crashes? <==> r.Crashed?)
    {
      if w.Crashes? then Crashed else Raised
    }

    /** From the root on: find it, refuse it, rebuild it or make it. */
    method OwnRoot(run: nat, payload: string) returns (r: Ending)
      requires Trusted(trace)
      modifies this
      ensures Trusted(trace) && Grown(old(trace), trace, run) && clock >= old(clock)
      ensures old(Sane(root)) ==> Sane(root)
      ensures old(Ours(root)) ==> Ours(root)
      ensures r.Ready? ==> root.Some? && root.value.owner
      ensures r.Ready? ==>
        root == if old(root).Some? && old(root).value.contract == Some(payload) then old(root) else Some(BARE.(owner := true))
      ensures old(root).Some? && !old(root).value.owner ==> r != Ready && root == old(root)
      ensures old(Calm()) ==> (r.Ready? <==> (old(root).None? || old(root).value.owner))
      ensures old(root).None? && DiesAtStamp(weather, old(clock)) ==> r.Crashed? && root == Some(BARE)
    {
      hide Since, Trusted;
      var rootCreated := false;
      var w := Step();
      if !w.Fine? { return Stopped(w); }
      if root.None? {
        rootCreated := true;
      } else {
        if !root.value.owner { return Raised; }
        if root.value.contract != Some(payload) {
          w := RemoveDirectory(run);
          if !w.Fine? { return Stopped(w); }
          rootCreated := true;
        }
      }
      w := MakeRoot(run);
      if !w.Fine? { return Stopped(w); }
      if rootCreated {
        w := StampOwner(run);
        if !w.Fine? { return Stopped(w); }
      }
      return Ready;
    }

    /** `EnvBuilder.create` in an empty directory, with the copy of the interpreter. */
    method BuildVenv(siteVisible: bool) returns (w: Weather)
      requires root.Some? && root.value.venv.EmptyVenv?
      modifies this`root, this`clock
      ensures root.Some? && root == Some(old(root).value.(venv := root.value.venv)) && clock >= old(clock)
      ensures w.Fine? ==> root.value.venv == Complete(siteVisible)
      ensures old(Calm()) ==> w.Fine?
    {
      w := Step();
      if !w.Fine? { return; }
      root := Some(root.value.(venv := Incomplete));
      w := Step();
      if !w.Fine? { return; }
      root := Some(root.value.(venv := Complete(siteVisible)));
    }

    /** The environment: reused when it validates, built when its directory is empty. */
    method PrepareVenv(run: nat, siteVisible: bool) returns (r: Ending)
      requires root.Some? && Trusted(trace)
      modifies this
      ensures Trusted(trace) && Grown(old(trace), trace, run) && clock >= old(clock) && root.Some?
      ensures root == Some(old(root).value.(venv := root.value.venv))
      ensures old(root).value.venv.Complete? ==> root == old(root)
      ensures r.Ready? ==> root.value.venv == Complete(siteVisible) && Since(trace, |trace|, Validated(run, Complete(siteVisible)))
      ensures old(Calm()) ==> (r.Ready? <==> Usable(old(root).value.venv, siteVisible))
    {
      hide Since, Trusted;
      var w := Step();
      if !w.Fine? { return Stopped(w); }
      if root.value.venv.NoVenv? {
        root := Some(root.value.(venv := EmptyVenv));
      }
      if root.value.venv.EmptyVenv? {
        w := BuildVenv(siteVisible);
        if !w.Fine? { return Stopped(w); }
      }
      w := Step();
      if !w.Fine? { return Stopped(w); }
      if root.value.venv != Complete(siteVisible) { return Raised; }
      Note(Validated(run, root.value.venv));
      return Ready;
    }

    /** The home and temporary directories. */
    method MakeHomes() returns (w: Weather)
      requires root.Some?
      modifies this`root, this`clock
      ensures root.Some? && root == Some(old(root).value.(home := root.value.home, tmp := root.value.tmp)) && clock >= old(clock)
      ensures w.Fine? ==> root.value.home && root.value.tmp
      ensures old(Calm()) ==> w.Fine?
    {
      w := Step();
      if !w.Fine? { return; }
      root := Some(root.value.(home := true));
      w := Step();
      if !w.Fine? { return; }
      root := Some(root.value.(tmp := true));
    }

    /** The contract receipt, unless the same one is there. */
    method StampContract(run: nat, payload: string, siteVisible: bool) returns (r: Ending)
      requires root.Some? && Trusted(trace) && Since(trace, |trace|, Validated(run, Complete(siteVisible)))
      modifies this
      ensures Trusted(trace) && Grown(old(trace), trace, run) && root.Some?
      ensures root == Some(old(root).value.(contract := root.value.contract))
      ensures old(root).value.contract.Some? || !r.Ready? ==> root == old(root)
      ensures r.Ready? ==> root.value.contract == Some(payload)
      ensures old(Calm()) && old(root).value.contract in {None, Some(payload)} ==> r.Ready?
    {
      hide Since, Trusted;
      var w := Step();
      if !w.Fine? { return Stopped(w); }
      if root.value.contract.Some? {
        if root.value.contract != Some(payload) { return Raised; }
      } else {
        Note(ContractWritten(run, payload, siteVisible));
        root := Some(root.value.(contract := Some(payload)));
      }
      return Ready;
    }

    /** `prepare_ci_runtime`, as a run with a number of its own. */
    method PrepareCiRuntime(run: nat, q: Request) returns (r: Ending)
      requires Trusted(trace) && Earlier(trace, run)
      modifies this
      ensures Trusted(trace) && Grown(old(trace), trace, run) && Earlier(trace, run + 1)
      ensures old(Sane(root)) ==> Sane(root)
      ensures q.contract.Some? && old(Ours(root)) ==> Ours(root)
      ensures q.contract.Some? && old(root).Some? && !old(root).value.owner ==> r != Ready && root == old(root)
      ensures r.Ready? ==> Prepared(root, q)
      ensures old(Calm()) ==> (r.Ready? <==> Repairable(old(root), q))
      ensures q.contract.Some? && old(root).None? && DiesAtStamp(weather, old(clock)) ==> r.Crashed? && root == Some(BARE)
    {
      hide Since, Trusted, Earlier, Grown;
      ghost var before := trace;
      if q.contract.Some? {
        r := OwnRoot(run, q.contract.value);
        EarlierStill(before, trace, run);
        if r != Ready { return; }
      } else {
        var w := MakeRoot(run);
        EarlierStill(before, trace, run);
        if !w.Fine? { return Stopped(w); }
      }
      ghost var mid := trace;
      r := FillRoot(run, q);
      GrownTwice(before, mid, trace, run);
      EarlierStill(before, trace, run);
    }

    /** Everything inside the root. */
    method FillRoot(run: nat, q: Request) returns (r: Ending)
      requires root.Some? && Trusted(trace) && (q.contract.Some? ==> root.value.contract in {None, q.contract})
      modifies this
      ensures Trusted(trace) && Grown(old(trace), trace, run) && root.Some?
      ensures old(Sane(root)) ==> Sane(root)
      ensures root.value.owner == old(root).value.owner
      ensures r.Ready? ==> root.value.home && root.value.tmp && root.value.node && root.value.venv == Complete(q.siteVisible)
      ensures r.Ready? && q.contract.Some? ==> root.value.contract == q.contract
      ensures old(Calm()) ==> (r.Ready? <==> Usable(old(root).value.venv, q.siteVisible))
    {
      hide Since, Trusted, Grown;
      var w := MakeHomes();
      GrownNot(trace, run);
      if !w.Fine? { return Stopped(w); }
      r := PrepareVenv(run, q.siteVisible);
      if r != Ready { return; }
      w := Step();
      if !w.Fine? { return Stopped(w); }
      root := Some(root.value.(node := true));
      ghost var before := trace;
      if q.contract.Some? {
        r := StampContract(run, q.contract.value, q.siteVisible);
        GrownTwice(old(trace), before, trace, run);
      }
    }

    /** Runs one after another, numbered from `first`, under any weather. */
    method Runs(first: nat, requests: seq<Request>) returns (endings: seq<Ending>)
      requires Trusted(trace) && Earlier(trace, first)
      modifies this
      ensures Trusted(trace) && Earlier(trace, first + |requests|) && old(trace) <= trace && |endings| == |requests|
      ensures old(Sane(root)) ==> Sane(root)
      ensures AllContracts(requests) && old(Ours(root)) ==> Ours(root)
      ensures AllContracts(requests) && old(root).Some? && !old(root).value.owner ==>
        root == old(root) && forall k :: 0 <= k < |endings| ==> endings[k] != Ready
    {
      hide Trusted;
      endings := [];
      for k := 0 to |requests|
        invariant Trusted(trace) && Earlier(trace, first + k) && old(trace) <= trace && |endings| == k
        invariant old(Sane(root)) ==> Sane(root)
        invariant AllContracts(requests) && old(Ours(root)) ==> Ours(root)
        invariant AllContracts(requests) && old(root).Some? && !old(root).value.owner ==>
          root == old(root) && forall i :: 0 <= i < k ==> endings[i] != Ready
      {
        var r := PrepareCiRuntime(first + k, requests[k]);
        endings := endings + [r];
      }
    }

    /** Any runs for contracts, from nothing or an owned directory, ending however they may, and
        then one run without faults, in the isolation mode of the receipt it meets: it succeeds
        unless the directory was left without its owner receipt, the one crash that no later run
        repairs. */
    method RunsThenRepair(first: nat, requests: seq<Request>, q: Request) returns (r: Ending, ghost left: Option<Root>, ghost calm: bool)
      requires Trusted(trace) && Earlier(trace, first) && AllContracts(requests) && q.contract.Some?
      requires Sane(root) && Ours(root)
      modifies this
      ensures Trusted(trace) && Sane(root) && Ours(root) && Sane(left) && Ours(left)
      ensures calm && SameIsolation(left, q) ==> (r.Ready? <==> left != Some(BARE))
      ensures r.Ready? ==> Prepared(root, q)
      ensures left == Some(BARE) ==> root == Some(BARE)
    {
      var endings := Runs(first, requests);
      left, calm := root, Calm();
      r := PrepareCiRuntime(first + |requests|, q);
      if SameIsolation(left, q) { RepairedExactly(left, q); }
    }
  }

  /** The window between making the directory and its owner receipt is met: this run, from nothing,
      crashes there, and the run after it meets no fault and is refused. */
  method CrashBeforeReceipt(q: Request) returns (runtime: Runtime, first: Ending, second: Ending)
    requires q.contract.Some?
    ensures fresh(runtime) && first.Crashed? && !second.Ready? && runtime.root == Some(BARE)
  {
    runtime := new Runtime(None, t => if t == 2 then Crashes else Fine);
    first := runtime.PrepareCiRuntime(0, q);
    second := runtime.PrepareCiRuntime(1, q);
  }

  /** The weather lets a run look and make the directory, and then stops it. */
  predicate DiesAtStamp(weather: nat -> Weather, clock: nat) {
    weather(clock).Fine? && weather(clock + 1).Fine? && weather(clock + 2).Crashes?
  }

  /** Only this run has added events. */
  predicate Grown(before: seq<Event>, after: seq<Event>, run: nat) {
    before <= after && forall i :: |before| <= i < |after| ==> after[i].run == run
  }

  lemma GrownNot(trace: seq<Event>, run: nat)
    ensures Grown(trace, trace, run)
  {
  }

  lemma GrownTwice(a: seq<Event>, b: seq<Event>, c: seq<Event>, run: nat)
    requires Grown(a, b, run) && Grown(b, c, run)
    ensures Grown(a, c, run)
  {
  }

  lemma EarlierStill(before: seq<Event>, after: seq<Event>, run: nat)
    requires Earlier(before, run) && Grown(before, after, run)
    ensures Earlier(after, run + 1)
  {
  }

  predicate AllContracts(requests: seq<Request>) {
    forall i :: 0 <= i < |requests| ==> requests[i].contract.Some?
  }

  /** A receipt for this contract was written by a run that asked for this isolation mode. */
  predicate SameIsolation(root: Option<Root>, q: Request) {
    root.Some? && root.value.contract == q.contract && root.value.venv.Complete? ==> root.value.venv.siteVisible == q.siteVisible
  }

  lemma RepairedExactly(root: Option<Root>, q: Request)
    requires Sane(root) && Ours(root) && q.contract.Some? && SameIsolation(root, q)
    ensures Repairable(root, q) <==> root != Some(BARE)
  {
  }
}
