/** Decoded JSON of the timing files, and the limits under which the bounded loader takes it. */
module TimingJson {
  import opened Outcomes
  import opened Bytes

  datatype Phase = Setup | Call | Teardown

  /** The field names of a timing report and of the artifact, and any other name. */
  datatype Key =
    | CollectedItemCount | Errors | ExitStatus | Files | PhaseReportCount | RunId | Schema | Shard
    | CollectedItems | DurationNs | Path | ReportCounts | TotalNs | PhaseKey(phase: Phase)
    | Index | MeasurementContext | Partition | ShardCount | Shards | TestFileCount | OtherKey(name: bytes)

  /** A literal is `true`, `false`, `null`, or a number that is no integer. */
  datatype Json =
    | Number(n: int) | Str(text: bytes) | Array(items: seq<Json>) | Object(fields: seq<Member>) | Literal

  /** A word in ASCII letters and marks. */
  function Letters(s: string): (r: bytes)
    ensures |r| == |s|
  {
    seq(|s|, i requires 0 <= i < |s| => if s[i] as int < 128 then s[i] as int else 63)
  }

  /** A key and its value. */
  datatype Member = Member(key: Key, value: Json)

  /** What `json` does: `dumps` writes a value and `loads` reads a text, if it is JSON at all. */
  datatype Codec = Codec(dumps: Json -> bytes, loads: bytes -> Option<Json>)

  /** The number of values in a JSON value, itself included. */
  function Nodes(j: Json): nat
    decreases j, 0
  {
    match j
    case Array(items) => 1 + AllNodes(items)
    case Object(fields) => 1 + FieldNodes(fields)
    case _ => 1
  }

  function AllNodes(items: seq<Json>): nat
    decreases items, 1
  {
    if items == [] then 0 else Nodes(items[0]) + AllNodes(items[1..])
  }

  function FieldNodes(fields: seq<Member>): nat
    decreases fields, 1
  {
    if fields == [] then 0 else MemberNodes(fields[0]) + FieldNodes(fields[1..])
  }

  function MemberNodes(m: Member): nat
    decreases m, 0
  {
    Nodes(m.value)
  }

  /** How deeply arrays and objects are nested. */
  function Depth(j: Json): nat
    decreases j, 0
  {
    match j
    case Array(items) => 1 + MaxDepth(items)
    case Object(fields) => 1 + FieldDepth(fields)
    case _ => 0
  }

  function MaxDepth(items: seq<Json>): nat
    decreases items, 1
  {
    if items == [] then 0 else Max(Depth(items[0]), MaxDepth(items[1..]))
  }

  function FieldDepth(fields: seq<Member>): nat
    decreases fields, 1
  {
    if fields == [] then 0 else Max(MemberDepth(fields[0]), FieldDepth(fields[1..]))
  }

  function MemberDepth(m: Member): nat
    decreases m, 0
  {
    Depth(m.value)
  }

  function Max(a: nat, b: nat): nat {
    if a >= b then a else b
  }

  /** Arrays and objects are nested `n` deep somewhere in the value. */
  predicate Nests(j: Json, n: nat) {
    n == 0
    || (j.Array? && (n == 1 || exists i :: 0 <= i < |j.items| && Nests(j.items[i], n - 1)))
    || (j.Object? && (n == 1 || exists i :: 0 <= i < |j.fields| && Nests(j.fields[i].value, n - 1)))
  }

  lemma {:induction false} DeepestItem(items: seq<Json>, n: nat)
    requires n >= 1
    ensures n <= MaxDepth(items) <==> exists i :: 0 <= i < |items| && n <= Depth(items[i])
  {
    hide Depth;
    if items != [] {
      DeepestItem(items[1..], n);
      assert forall i :: 1 <= i < |items| ==> items[i] == items[1..][i - 1];
      if i :| 0 <= i < |items[1..]| && n <= Depth(items[1..][i]) { assert items[i + 1] == items[1..][i]; }
    }
  }

  lemma {:induction false} DeepestField(fields: seq<Member>, n: nat)
    requires n >= 1
    ensures n <= FieldDepth(fields) <==> exists i :: 0 <= i < |fields| && n <= Depth(fields[i].value)
  {
    hide Depth;
    if fields != [] {
      DeepestField(fields[1..], n);
      assert MemberDepth(fields[0]) == Depth(fields[0].value);
      assert forall i :: 1 <= i < |fields| ==> fields[i] == fields[1..][i - 1];
      if i :| 0 <= i < |fields[1..]| && n <= Depth(fields[1..][i].value) { assert fields[i + 1] == fields[1..][i]; }
    }
  }

  /** The depth is the greatest number of arrays and objects around one another. */
  lemma {:induction false} DepthExactly(j: Json, n: nat)
    ensures n <= Depth(j) <==> Nests(j, n)
    decreases n
  {
    if n >= 2 {
      if j.Array? {
        DeepestItem(j.items, n - 1);
        forall i | 0 <= i < |j.items| ensures n - 1 <= Depth(j.items[i]) <==> Nests(j.items[i], n - 1) { DepthExactly(j.items[i], n - 1); }
      } else if j.Object? {
        DeepestField(j.fields, n - 1);
        forall i | 0 <= i < |j.fields| ensures n - 1 <= Depth(j.fields[i].value) <==> Nests(j.fields[i].value, n - 1) {
          DepthExactly(j.fields[i].value, n - 1);
        }
      }
    }
  }

  predicate UniqueKeys(fields: seq<Member>) {
    forall i, k :: 0 <= i < k < |fields| ==> fields[i].key != fields[k].key
  }

  /** No object in the value has a key twice. */
  predicate Unambiguous(j: Json) {
    match j
    case Array(items) => forall i :: 0 <= i < |items| ==> Unambiguous(items[i])
    case Object(fields) => UniqueKeys(fields) && forall i :: 0 <= i < |fields| ==> Unambiguous(fields[i].value)
    case _ => true
  }

  /** `part` is the value, or inside it. */
  predicate Inside(part: Json, j: Json) {
    part == j
    || match j
       case Array(items) => exists i :: 0 <= i < |items| && Inside(part, items[i])
       case Object(fields) => exists i :: 0 <= i < |fields| && Inside(part, fields[i].value)
       case _ => false
  }

  /** A value is free of ambiguity exactly when no object inside it repeats a key. */
  lemma {:induction false} UnambiguousExactly(j: Json)
    ensures Unambiguous(j) <==> forall part :: Inside(part, j) && part.Object? ==> UniqueKeys(part.fields)
  {
    match j
    case Array(items) =>
      forall i | 0 <= i < |items|
        ensures Unambiguous(items[i]) <==> forall part :: Inside(part, items[i]) && part.Object? ==> UniqueKeys(part.fields)
      {
        UnambiguousExactly(items[i]);
      }
    case Object(fields) =>
      forall i | 0 <= i < |fields|
        ensures Unambiguous(fields[i].value) <==> forall part :: Inside(part, fields[i].value) && part.Object? ==> UniqueKeys(part.fields)
      {
        UnambiguousExactly(fields[i].value);
      }
    case _ =>
  }

  const MAX_DEPTH := 5
  const MAX_NODES := 100_000

  /** `safe_load_bounded_json` with these limits. */
  function LoadBounded(raw: bytes, maximum: nat, codec: Codec): (r: Option<Json>)
    ensures r.Some? <==>
      |raw| <= maximum && codec.loads(raw).Some?
      && var j := codec.loads(raw).value; Depth(j) <= MAX_DEPTH && Nodes(j) <= MAX_NODES && Unambiguous(j)
    ensures r.Some? ==> r == codec.loads(raw)
  {
    if |raw| > maximum then None
    else
      var j := codec.loads(raw);
      if j.None? || Depth(j.value) > MAX_DEPTH || Nodes(j.value) > MAX_NODES || !Unambiguous(j.value) then None else j
  }

  // ---- fields ----

  function KeysOf(fields: seq<Member>): set<Key> {
    set f | f in fields :: f.key
  }

  function Field(fields: seq<Member>, key: Key): (r: Option<Json>)
    ensures r.Some? ==> Member(key, r.value) in fields
    ensures r.None? <==> key !in KeysOf(fields)
  {
    if fields == [] then None
    else if fields[0].key == key then
      assert fields[0] in fields;
      Some(fields[0].value)
    else
      assert fields == [fields[0]] + fields[1..];
      Field(fields[1..], key)
  }

  /** An object with exactly these keys. */
  predicate HasShape(j: Json, keys: set<Key>) {
    j.Object? && KeysOf(j.fields) == keys
  }

  lemma {:induction false} FieldAt(fields: seq<Member>, i: nat)
    requires i < |fields| && UniqueKeys(fields)
    ensures Field(fields, fields[i].key) == Some(fields[i].value)
  {
    if i > 0 { FieldAt(fields[1..], i - 1); }
  }

  lemma KeyAt(fields: seq<Member>, i: nat)
    requires i < |fields|
    ensures fields[i].key in KeysOf(fields)
  {
    assert fields[i] in fields;
  }

  // ---- measures of built values ----

  lemma {:induction false} FieldNodesConcat(a: seq<Member>, b: seq<Member>)
    ensures FieldNodes(a + b) == FieldNodes(a) + FieldNodes(b)
  {
    hide Nodes;
    if a == [] {
      assert a + b == b;
    } else {
      assert (a + b)[1..] == a[1..] + b;
      FieldNodesConcat(a[1..], b);
    }
  }

  lemma FieldNodesOne(m: Member)
    ensures FieldNodes([m]) == Nodes(m.value)
  {
    hide Nodes;
    var one := [m];
    assert one[1..] == [] && FieldNodes(one[1..]) == 0;
  }

  predicate Flat(j: Json) {
    !j.Array? && !j.Object?
  }

  lemma {:induction false} FlatNodes(fields: seq<Member>)
    requires forall i :: 0 <= i < |fields| ==> Flat(fields[i].value)
    ensures FieldNodes(fields) == |fields|
  {
    if fields != [] {
      FlatNodes(fields[1..]);
      assert MemberNodes(fields[0]) == Nodes(fields[0].value) == 1;
    }
  }

  lemma {:induction false} FieldDepthAtMost(fields: seq<Member>, d: nat)
    requires forall i :: 0 <= i < |fields| ==> Depth(fields[i].value) <= d
    ensures FieldDepth(fields) <= d
  {
    hide Depth;
    if fields != [] { FieldDepthAtMost(fields[1..], d); }
  }

  lemma {:induction false} MaxDepthAtMost(items: seq<Json>, d: nat)
    requires forall i :: 0 <= i < |items| ==> Depth(items[i]) <= d
    ensures MaxDepth(items) <= d
  {
    hide Depth;
    if items != [] { MaxDepthAtMost(items[1..], d); }
  }
}
