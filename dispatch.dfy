/** `start_definition_processing` (analysismgr.py): the pipelines attached to each kind of
    definition and the loop that moves records from the pending list onto the processing
    queue. The workers, the queue's `join` barrier and the definition constructors of
    `jobsmgr` are not part of this model: the state a definition built from a record
    reports is the input `stateOf`, and the queue is the sequence of definitions pushed. */
module Dispatcher {
  import opened Records

  /** The `state` a freshly built definition reports. */
  datatype State = NotStarted | Running | Completed | Failed

  const AlertTasks: seq<string> :=
    ["pull data", "process alerts", "persist alerts", "prepare alerts", "show results"]

  const ReportTasks: seq<string> :=
    ["process benchmarks", "pull results", "analyze results", "prepare report", "show results"]

  /** The fixed pipeline of a kind: five distinct, non-empty stage names, the last of which
      is "show results"; alerts start by pulling data, reports by processing benchmarks. */
  function Pipeline(kind: Kind): (stages: seq<string>)
    ensures |stages| == 5 && stages[4] == "show results"
    ensures forall i :: 0 <= i < 5 ==> stages[i] != ""
    ensures forall i, j :: 0 <= i < j < 5 ==> stages[i] != stages[j]
    ensures stages[0] == (if kind == Alert then "pull data" else "process benchmarks")
  {
    match kind
    case Alert => AlertTasks
    case Report => ReportTasks
  }

  /** A definition handed to a worker: its kind, the record it was built from, and the
      pipeline attached to it. */
  datatype Definition = Definition(kind: Kind, record: Params, pipeline: seq<string>)

  /** Every record is stamped with one of the two kinds. */
  predicate Typed(s: seq<Params>) {
    forall x :: x in s ==> KindOf(x).Some?
  }

  /** Attaching the pipeline and building the definition for one pending record: an
      `alert` record gets the alert pipeline and a `report` record the report pipeline. */
  function Build(record: Params): (d: Definition)
    requires KindOf(record).Some?
    ensures d.record == record && Some(d.kind) == KindOf(record)
    ensures record["type"] == Str("alert") ==> d.pipeline == AlertTasks
    ensures record["type"] == Str("report") ==> d.pipeline == ReportTasks
  {
    var kind := KindOf(record).value;
    Definition(kind, record, Pipeline(kind))
  }

  /** Every queued definition is the one built from its record. */
  predicate Built(q: seq<Definition>) {
    forall k :: 0 <= k < |q| ==> KindOf(q[k].record).Some? && q[k] == Build(q[k].record)
  }

  function RecordsOf(q: seq<Definition>): (r: seq<Params>)
    ensures |r| == |q| && forall k :: 0 <= k < |q| ==> r[k] == q[k].record
  {
    seq(|q|, k requires 0 <= k < |q| => q[k].record)
  }

  predicate Distinct<T(==)>(s: seq<T>) {
    forall i, j :: 0 <= i < j < |s| ==> s[i] != s[j]
  }

  /** Python's `list.remove(x)`: deletes one occurrence of `x`, the first. */
  function RemoveFirst<T(==)>(s: seq<T>, x: T): (r: seq<T>)
    requires x in s
    ensures |r| == |s| - 1
  {
    if s[0] == x then s[1..] else [s[0]] + RemoveFirst(s[1..], x)
  }

  /** Exactly one copy of `x` goes away. */
  lemma {:induction false} RemoveFirstMultiset<T>(s: seq<T>, x: T)
    requires x in s
    ensures multiset(RemoveFirst(s, x)) == multiset(s) - multiset{x}
    ensures forall y :: y in RemoveFirst(s, x) ==> y in s
  {
    assert s == [s[0]] + s[1..];
    if s[0] != x {
      RemoveFirstMultiset(s[1..], x);
    }
    forall y | y in RemoveFirst(s, x) ensures y in s {
      assert y in multiset(RemoveFirst(s, x));
    }
  }

  /** The element removed is the first one equal to `x`; the others keep their order. */
  lemma {:induction false} RemoveFirstAt<T>(s: seq<T>, x: T, i: nat)
    requires i < |s| && s[i] == x
    requires forall k :: 0 <= k < i ==> s[k] != x
    ensures RemoveFirst(s, x) == s[..i] + s[i + 1..]
  {
    if i > 0 {
      var t := s[1..];
      assert forall k :: 0 <= k < i - 1 ==> t[k] == s[k + 1];
      RemoveFirstAt(t, x, i - 1);
      assert RemoveFirst(s, x) == [s[0]] + RemoveFirst(t, x);
      assert t[..i - 1] == s[1..i];
      assert t[i..] == s[i + 1..];
      assert s[..i] == [s[0]] + s[1..i];
    }
  }

  lemma DistinctRemoveAt<T>(s: seq<T>, i: nat)
    requires Distinct(s) && i < |s|
    ensures Distinct(s[..i] + s[i + 1..])
  {
    var t := s[..i] + s[i + 1..];
    forall a, b | 0 <= a < b < |t| ensures t[a] != t[b] {
      var a' := if a < i then a else a + 1;
      var b' := if b < i then b else b + 1;
      assert t[a] == s[a'] && t[b] == s[b'];
    }
  }

  /** The records of `s` whose definitions read "not started", in order. */
  function Eligible<T>(s: seq<T>, stateOf: T -> State): seq<T> {
    if s == [] then []
    else (if stateOf(s[0]) == NotStarted then [s[0]] else []) + Eligible(s[1..], stateOf)
  }

  /** The records of `s` whose definitions read anything else, in order. */
  function Blocked<T>(s: seq<T>, stateOf: T -> State): seq<T> {
    if s == [] then []
    else (if stateOf(s[0]) != NotStarted then [s[0]] else []) + Blocked(s[1..], stateOf)
  }

  /** Every record is either eligible or blocked, and nothing else is. */
  lemma {:induction false} EligibleBlockedSplit<T>(s: seq<T>, stateOf: T -> State)
    ensures multiset(Eligible(s, stateOf)) + multiset(Blocked(s, stateOf)) == multiset(s)
    ensures forall x :: x in Eligible(s, stateOf) ==> stateOf(x) == NotStarted
    ensures forall x :: x in Blocked(s, stateOf) ==> stateOf(x) != NotStarted
  {
    if s != [] {
      EligibleBlockedSplit(s[1..], stateOf);
      assert s == [s[0]] + s[1..];
    }
  }

  /** No record is blocked exactly when every record reads "not started"; when no record
      reads "not started", every record is blocked. */
  lemma {:induction false} BlockedExtremes<T>(s: seq<T>, stateOf: T -> State)
    ensures Blocked(s, stateOf) == [] <==> forall k :: 0 <= k < |s| ==> stateOf(s[k]) == NotStarted
    ensures (forall k :: 0 <= k < |s| ==> stateOf(s[k]) != NotStarted) ==> Blocked(s, stateOf) == s
  {
    if s != [] {
      BlockedExtremes(s[1..], stateOf);
      assert forall k :: 1 <= k < |s| ==> s[1..][k - 1] == s[k];
      assert s == [s[0]] + s[1..];
    }
  }

  /** Removing a record that reads "not started" leaves the blocked records as they were. */
  lemma {:induction false} BlockedRemoveEligible<T>(s: seq<T>, x: T, stateOf: T -> State)
    requires x in s && stateOf(x) == NotStarted
    ensures Blocked(RemoveFirst(s, x), stateOf) == Blocked(s, stateOf)
  {
    if s[0] != x {
      assert s == [s[0]] + s[1..];
      BlockedRemoveEligible(s[1..], x, stateOf);
      var r := [s[0]] + RemoveFirst(s[1..], x);
      assert r[1..] == RemoveFirst(s[1..], x);
    }
  }

  /** One pass of the `for` loop over the pending list, from index `i` on, as Python iterates
      a list: by index, re-reading the length each step. A record reading "not started" is
      pushed and removed, so the record that slides into its slot is skipped; any other
      record stays. The result is the records pushed, in order, and the new pending list. */
  function Pass<T(==)>(pending: seq<T>, i: nat, stateOf: T -> State): (seq<T>, seq<T>)
    decreases |pending| - i
  {
    if i >= |pending| then ([], pending)
    else if stateOf(pending[i]) == NotStarted then
      var next := Pass(RemoveFirst(pending, pending[i]), i + 1, stateOf);
      ([pending[i]] + next.0, next.1)
    else Pass(pending, i + 1, stateOf)
  }

  /** A pass loses no record and duplicates none: every record ends up either pushed or
      still pending. */
  lemma {:induction false} PassConserves<T>(pending: seq<T>, i: nat, stateOf: T -> State)
    ensures multiset(Pass(pending, i, stateOf).0) + multiset(Pass(pending, i, stateOf).1) == multiset(pending)
    decreases |pending| - i
  {
    if i < |pending| {
      if stateOf(pending[i]) == NotStarted {
        var x := pending[i];
        var next := Pass(RemoveFirst(pending, x), i + 1, stateOf);
        PassConserves(RemoveFirst(pending, x), i + 1, stateOf);
        RemoveFirstMultiset(pending, x);
        assert Pass(pending, i, stateOf) == ([x] + next.0, next.1);
        assert multiset([x] + next.0) == multiset{x} + multiset(next.0);
        assert x in multiset(pending);
      } else {
        PassConserves(pending, i + 1, stateOf);
      }
    }
  }

  /** A pass pushes only records that read "not started", and leaves the others pending, in
      their order. */
  lemma {:induction false} PassRespectsState<T>(pending: seq<T>, i: nat, stateOf: T -> State)
    ensures forall x :: x in Pass(pending, i, stateOf).0 ==> stateOf(x) == NotStarted
    ensures Blocked(Pass(pending, i, stateOf).1, stateOf) == Blocked(pending, stateOf)
    decreases |pending| - i
  {
    if i < |pending| {
      if stateOf(pending[i]) == NotStarted {
        var x := pending[i];
        PassRespectsState(RemoveFirst(pending, x), i + 1, stateOf);
        BlockedRemoveEligible(pending, x, stateOf);
      } else {
        PassRespectsState(pending, i + 1, stateOf);
      }
    }
  }

  /** A pass pushes nothing exactly when no record from index `i` on reads "not started",
      and then the pending list is unchanged. */
  lemma {:induction false} PassProgress<T>(pending: seq<T>, i: nat, stateOf: T -> State)
    ensures Pass(pending, i, stateOf).0 == [] <==>
              forall k :: i <= k < |pending| ==> stateOf(pending[k]) != NotStarted
    ensures Pass(pending, i, stateOf).0 == [] ==> Pass(pending, i, stateOf).1 == pending
    decreases |pending| - i
  {
    if i < |pending| && stateOf(pending[i]) != NotStarted {
      PassProgress(pending, i + 1, stateOf);
    }
  }

  /** The entries at even positions: indices 0, 2, 4, ... */
  function Evens<T>(s: seq<T>): (r: seq<T>)
    ensures |r| == (|s| + 1) / 2
    ensures forall k :: 0 <= k < |r| ==> r[k] == s[2 * k]
    decreases |s|
  {
    if s == [] then [] else [s[0]] + Odds(s[1..])
  }

  /** The entries at odd positions: indices 1, 3, 5, ... */
  function Odds<T>(s: seq<T>): (r: seq<T>)
    ensures |r| == |s| / 2
    ensures forall k :: 0 <= k < |r| ==> r[k] == s[2 * k + 1]
    decreases |s|
  {
    if s == [] then [] else Evens(s[1..])
  }

  /** Pushing the record at `i` removes it from its own slot when no earlier record equals it. */
  lemma PassRemoves<T>(s: seq<T>, i: nat, stateOf: T -> State)
    requires i < |s| && stateOf(s[i]) == NotStarted
    requires forall k :: 0 <= k < i ==> s[k] != s[i]
    ensures Pass(s, i, stateOf) ==
              ([s[i]] + Pass(s[..i] + s[i + 1..], i + 1, stateOf).0, Pass(s[..i] + s[i + 1..], i + 1, stateOf).1)
  {
    RemoveFirstAt(s, s[i], i);
  }

  lemma EvensOddsAt<T>(s: seq<T>, i: nat)
    requires i < |s|
    ensures Evens(s[i..]) == [s[i]] + Odds(s[i + 1..])
    ensures Odds(s[i..]) == Evens(s[i + 1..])
  {
    assert s[i..][1..] == s[i + 1..];
  }

  /** Removing the entry at `i` keeps the other records distinct and "not started", and
      shifts the ones after it down by one. */
  lemma RemovedAt<T>(s: seq<T>, i: nat, stateOf: T -> State)
    requires i + 1 < |s| && Distinct(s)
    requires forall k :: 0 <= k < |s| ==> stateOf(s[k]) == NotStarted
    ensures var s' := s[..i] + s[i + 1..];
            && Distinct(s')
            && (forall k :: 0 <= k < |s'| ==> stateOf(s'[k]) == NotStarted)
            && s'[i + 1..] == s[i + 2..]
            && s'[..i + 1] == s[..i] + [s[i + 1]]
  {
    var s' := s[..i] + s[i + 1..];
    DistinctRemoveAt(s, i);
    forall k | 0 <= k < |s'| ensures stateOf(s'[k]) == NotStarted {
      assert s'[k] == if k < i then s[k] else s[k + 1];
    }
  }

  /** When every record is distinct and reads "not started", a pass from index `i` pushes
      the entries at `i`, `i + 2`, `i + 4`, ... and leaves the others pending: each removal
      makes the iteration skip the entry that slides into the removed slot. */
  lemma {:induction false} PassAlternates<T>(pending: seq<T>, i: nat, stateOf: T -> State)
    requires i <= |pending| && Distinct(pending)
    requires forall k :: 0 <= k < |pending| ==> stateOf(pending[k]) == NotStarted
    ensures Pass(pending, i, stateOf) == (Evens(pending[i..]), pending[..i] + Odds(pending[i..]))
    decreases |pending| - i, 1
  {
    if i + 1 < |pending| {
      PassAlternatesStep(pending, i, stateOf);
    } else if i + 1 == |pending| {
      PassAlternatesLast(pending, i, stateOf);
    } else {
      assert pending[i..] == [] && pending[..i] == pending;
      assert Evens(pending[i..]) == [] && Odds(pending[i..]) == [];
      assert pending[..i] + Odds(pending[i..]) == pending;
      assert Pass(pending, i, stateOf) == ([], pending);
    }
  }

  /** The inductive step: the entry at `i` is pushed, the one after it slides into slot `i`
      and is skipped, and the pass goes on from `i + 1` over the rest. */
  lemma {:induction false} PassAlternatesStep<T>(s: seq<T>, i: nat, stateOf: T -> State)
    requires i + 1 < |s| && Distinct(s)
    requires forall k :: 0 <= k < |s| ==> stateOf(s[k]) == NotStarted
    ensures Pass(s, i, stateOf) == (Evens(s[i..]), s[..i] + Odds(s[i..]))
    decreases |s| - i, 0
  {
    var s' := s[..i] + s[i + 1..];
    PassRemoves(s, i, stateOf);
    RemovedAt(s, i, stateOf);
    PassAlternates(s', i + 1, stateOf);
    EvensOddsAt(s, i);
    EvensOddsAt(s, i + 1);
    assert Pass(s, i, stateOf).0 == [s[i]] + Evens(s[i + 2..]) == Evens(s[i..]);
    assert Pass(s, i, stateOf).1 == (s[..i] + [s[i + 1]]) + Odds(s[i + 2..]);
    assert (s[..i] + [s[i + 1]]) + Odds(s[i + 2..]) == s[..i] + Odds(s[i..]);
  }

  /** The last entry is pushed and the pass ends. */
  lemma PassAlternatesLast<T>(s: seq<T>, i: nat, stateOf: T -> State)
    requires i + 1 == |s| && Distinct(s)
    requires forall k :: 0 <= k < |s| ==> stateOf(s[k]) == NotStarted
    ensures Pass(s, i, stateOf) == (Evens(s[i..]), s[..i] + Odds(s[i..]))
  {
    var s' := s[..i] + s[i + 1..];
    PassRemoves(s, i, stateOf);
    EvensOddsAt(s, i);
    assert s' == s[..i] && s[i + 1..] == [];
    assert Pass(s', i + 1, stateOf) == ([], s');
  }

  /** The `for` loop of `start_definition_processing`: one pass over the pending list, which
      builds each record's definition, pushes it when it reads "not started" and removes the
      record in the same step, and leaves it pending otherwise. */
  method ScanPass(pending: seq<Params>, stateOf: Params -> State) returns (pushed: seq<Definition>, rest: seq<Params>)
    requires Typed(pending)
    ensures RecordsOf(pushed) == Pass(pending, 0, stateOf).0 && rest == Pass(pending, 0, stateOf).1
    ensures Built(pushed)
    ensures Typed(rest)
  {
    var list := pending;
    var i := 0;
    pushed := [];
    while i < |list|
      invariant i <= |list| + 1
      invariant Typed(list)
      invariant RecordsOf(pushed) + Pass(list, i, stateOf).0 == Pass(pending, 0, stateOf).0
      invariant Pass(list, i, stateOf).1 == Pass(pending, 0, stateOf).1
      invariant Built(pushed)
      decreases |list| + 1 - i
    {
      var params := list[i];
      PassStep(list, i, stateOf);
      i := i + 1;
      var definition := Build(params);
      if stateOf(params) == NotStarted {
        RecordsOfPush(pushed, definition);
        BuiltPush(pushed, definition);
        pushed := pushed + [definition];
        TypedRemove(list, params);
        list := RemoveFirst(list, params);
      }
    }
    rest := list;
  }

  /** Removing a record keeps every remaining record stamped with a kind. */
  lemma TypedRemove(list: seq<Params>, x: Params)
    requires Typed(list) && x in list
    ensures Typed(RemoveFirst(list, x))
  {
    RemoveFirstMultiset(list, x);
  }

  lemma BuiltPush(q: seq<Definition>, d: Definition)
    requires Built(q) && KindOf(d.record).Some? && d == Build(d.record)
    ensures Built(q + [d])
  {
    forall k | 0 <= k < |q| + 1 ensures KindOf((q + [d])[k].record).Some? && (q + [d])[k] == Build((q + [d])[k].record) {
      if k < |q| { assert (q + [d])[k] == q[k]; }
    }
  }

  lemma BuiltAppend(q: seq<Definition>, p: seq<Definition>)
    requires Built(q) && Built(p)
    ensures Built(q + p)
  {
    forall k | 0 <= k < |q + p| ensures KindOf((q + p)[k].record).Some? && (q + p)[k] == Build((q + p)[k].record) {
      if k < |q| { assert (q + p)[k] == q[k]; } else { assert (q + p)[k] == p[k - |q|]; }
    }
  }

  /** One step of a pass. */
  lemma PassStep<T>(pending: seq<T>, i: nat, stateOf: T -> State)
    requires i < |pending|
    ensures stateOf(pending[i]) == NotStarted ==>
              Pass(pending, i, stateOf) ==
                ([pending[i]] + Pass(RemoveFirst(pending, pending[i]), i + 1, stateOf).0,
                 Pass(RemoveFirst(pending, pending[i]), i + 1, stateOf).1)
    ensures stateOf(pending[i]) != NotStarted ==> Pass(pending, i, stateOf) == Pass(pending, i + 1, stateOf)
  {
  }

  lemma RecordsOfPush(q: seq<Definition>, d: Definition)
    ensures RecordsOf(q + [d]) == RecordsOf(q) + [d.record]
  {
  }

  /** A sequence without repetitions holds each value at most once. */
  lemma {:induction false} DistinctCounted<T>(s: seq<T>)
    requires Distinct(s)
    ensures forall x :: multiset(s)[x] <= 1
  {
    if s != [] {
      var t := s[1..];
      assert s == [s[0]] + t;
      assert Distinct(t) by {
        forall a, b | 0 <= a < b < |t| ensures t[a] != t[b] {
          assert t[a] == s[a + 1] && t[b] == s[b + 1];
        }
      }
      assert s[0] !in t by {
        forall k | 0 <= k < |t| ensures t[k] != s[0] { assert t[k] == s[k + 1]; }
      }
      DistinctCounted(t);
    }
  }

  /** A sequence that holds each value at most once has no repetitions. */
  lemma CountedDistinct<T>(s: seq<T>)
    requires forall x :: multiset(s)[x] <= 1
    ensures Distinct(s)
  {
    forall a, b | 0 <= a < b < |s| ensures s[a] != s[b] {
      assert s == s[..b] + s[b..];
      assert s[a] in s[..b] && s[b] in s[b..];
      assert multiset(s)[s[b]] == multiset(s[..b])[s[b]] + multiset(s[b..])[s[b]];
    }
  }

  /** A sub-multiset of a sequence without repetitions has no repetitions. */
  lemma DistinctSub<T>(a: seq<T>, b: seq<T>)
    requires multiset(a) <= multiset(b) && Distinct(b)
    ensures Distinct(a)
  {
    DistinctCounted(b);
    assert forall x :: multiset(a)[x] <= multiset(b)[x];
    CountedDistinct(a);
  }

  /** `start_definition_processing` up to the queue's `join`: repeat passes until the pending
      list is empty. A pass that pushes nothing would be repeated unchanged forever, because
      the state a record's definition reports is fixed here; the model stops there and
      returns the records the source would spin on as `stuck`.

      Every record reading "not started" is put on the queue exactly as many times as it
      occurs in the batch (once, when records are distinct), with its kind's pipeline;
      every other record stays pending; the loop ends with nothing pending exactly when every
      record reads "not started", and then every record is queued and, for distinct records,
      the first pass takes the alternate entries. */
  method Dispatch(definitions: seq<Params>, stateOf: Params -> State) returns (queue: seq<Definition>, stuck: seq<Params>)
    requires Typed(definitions)
    ensures multiset(RecordsOf(queue)) == multiset(Eligible(definitions, stateOf))
    ensures Built(queue)
    ensures stuck == Blocked(definitions, stateOf)
    ensures stuck == [] <==> forall k :: 0 <= k < |definitions| ==> stateOf(definitions[k]) == NotStarted
    ensures stuck == [] ==> multiset(RecordsOf(queue)) == multiset(definitions)
    ensures Distinct(definitions) ==> Distinct(RecordsOf(queue))
    ensures Distinct(definitions) && stuck == [] ==> EvensFirst(RecordsOf(queue), definitions)
  {
    var pending := definitions;
    queue := [];
    ghost var first := true;
    ghost var alternating := Distinct(definitions)
      && (forall k :: 0 <= k < |definitions| ==> stateOf(definitions[k]) == NotStarted);
    while pending != []
      invariant Typed(pending)
      invariant multiset(RecordsOf(queue)) + multiset(pending) == multiset(definitions)
      invariant Blocked(pending, stateOf) == Blocked(definitions, stateOf)
      invariant Built(queue)
      invariant first ==> pending == definitions && queue == []
      invariant !first && alternating ==> EvensFirst(RecordsOf(queue), definitions)
      decreases |pending|
    {
      var pushed, rest := ScanPass(pending, stateOf);
      PassKeepsInvariant(definitions, stateOf, queue, pending, pushed, rest);
      if pushed == [] {
        // The next pass would be this one again: the source spins here forever.
        break;
      }
      AlternationKept(definitions, stateOf, queue, pending, pushed, first, alternating);
      BuiltAppend(queue, pushed);
      queue := queue + pushed;
      pending := rest;
      first := false;
    }
    assert pending == Blocked(pending, stateOf);
    stuck := pending;
    assert multiset(RecordsOf(queue)) == multiset(Eligible(definitions, stateOf)) by {
      EligibleBlockedSplit(definitions, stateOf);
      MultisetCancel(multiset(RecordsOf(queue)), multiset(stuck), multiset(definitions));
      MultisetCancel(multiset(Eligible(definitions, stateOf)), multiset(stuck), multiset(definitions));
    }
    BlockedExtremes(definitions, stateOf);
    if Distinct(definitions) {
      DistinctSub(RecordsOf(queue), definitions);
    }
    if first && stuck == [] {
      assert RecordsOf(queue) == [] == Evens(definitions);
    }
  }

  /** `q` starts with the entries of `definitions` at even positions, in order. */
  predicate EvensFirst(q: seq<Params>, definitions: seq<Params>) {
    |Evens(definitions)| <= |q| && q[..|Evens(definitions)|] == Evens(definitions)
  }

  /** The first pass over distinct records that all read "not started" pushes the entries at
      even positions, and later passes only append after them. */
  lemma AlternationKept(definitions: seq<Params>, stateOf: Params -> State, queue: seq<Definition>,
                        pending: seq<Params>, pushed: seq<Definition>, first: bool, alternating: bool)
    requires first ==> pending == definitions && queue == []
    requires alternating ==> Distinct(definitions)
                             && forall k :: 0 <= k < |definitions| ==> stateOf(definitions[k]) == NotStarted
    requires !first && alternating ==> EvensFirst(RecordsOf(queue), definitions)
    requires RecordsOf(pushed) == Pass(pending, 0, stateOf).0
    ensures alternating ==> EvensFirst(RecordsOf(queue + pushed), definitions)
  {
    RecordsOfAppend(queue, pushed);
    if alternating {
      if first {
        PassAlternates(pending, 0, stateOf);
        assert pending[0..] == pending;
        assert queue + pushed == pushed;
      } else {
        var n := |Evens(definitions)|;
        assert RecordsOf(queue + pushed)[..n] == RecordsOf(queue)[..n];
      }
    }
  }

  /** What one pass of the dispatch loop keeps: no record is lost or duplicated, the blocked
      records stay pending in order, and a pass that pushes nothing leaves only blocked records. */
  lemma PassKeepsInvariant(definitions: seq<Params>, stateOf: Params -> State, queue: seq<Definition>,
                           pending: seq<Params>, pushed: seq<Definition>, rest: seq<Params>)
    requires multiset(RecordsOf(queue)) + multiset(pending) == multiset(definitions)
    requires Blocked(pending, stateOf) == Blocked(definitions, stateOf)
    requires RecordsOf(pushed) == Pass(pending, 0, stateOf).0 && rest == Pass(pending, 0, stateOf).1
    ensures multiset(RecordsOf(queue + pushed)) + multiset(rest) == multiset(definitions)
    ensures Blocked(rest, stateOf) == Blocked(definitions, stateOf)
    ensures pushed == [] ==> pending == Blocked(pending, stateOf)
    ensures pushed != [] ==> |rest| < |pending|
  {
    var q, p := RecordsOf(queue), RecordsOf(pushed);
    assert multiset(p) + multiset(rest) == multiset(pending) by {
      PassConserves(pending, 0, stateOf);
    }
    assert multiset(RecordsOf(queue + pushed)) + multiset(rest) == multiset(definitions) by {
      RecordsOfAppend(queue, pushed);
      assert multiset(RecordsOf(queue + pushed)) == multiset(q) + multiset(p);
    }
    assert Blocked(rest, stateOf) == Blocked(definitions, stateOf) by {
      PassRespectsState(pending, 0, stateOf);
    }
    if pushed == [] {
      PassProgress(pending, 0, stateOf);
      BlockedExtremes(pending, stateOf);
    } else {
      assert |p| + |rest| == |pending| by {
        assert |multiset(p)| + |multiset(rest)| == |multiset(pending)|;
      }
    }
  }

  /** Appending to the queue appends the records, and keeps every prefix of the old ones. */
  lemma RecordsOfAppend(q: seq<Definition>, p: seq<Definition>)
    ensures RecordsOf(q + p) == RecordsOf(q) + RecordsOf(p)
    ensures forall m :: 0 <= m <= |q| ==> RecordsOf(q + p)[..m] == RecordsOf(q)[..m]
  {
  }

  lemma MultisetCancel<T>(a: multiset<T>, b: multiset<T>, c: multiset<T>)
    requires a + b == c
    ensures a == c - b
  {
    assert forall x :: (c - b)[x] == a[x];
  }
}
