/**
 * The ESG client's work queue: every task (an instrument descriptor) is taken from the head of
 * the queue, identified by the tuple of its field values, skipped when that key already has a
 * result, and otherwise fetched by its second field; a successful fetch is stored under the
 * key, a failed one is dropped. The pool of processes and threads running this loop is
 * modelled as one sequential worker, and the fetcher as an oracle from code to payload.
 */
module Lseg {
  import opened Wrappers

  // ---------------------------------------------------------------------
  // Tasks, keys and the result store
  // ---------------------------------------------------------------------

  /** An instrument descriptor as the ticker search returns it: its fields, in order. */
  type Task = seq<(string, string)>

  /** The identity of a task: the tuple of its field values. */
  type Key = seq<string>

  /** `tuple(ric_data.values())` */
  function IdentityKey(t: Task): (k: Key)
    ensures |k| == |t| && forall i :: 0 <= i < |t| ==> k[i] == t[i].1
  {
    seq(|t|, i requires 0 <= i < |t| => t[i].1)
  }

  /** The result dictionary: payloads by key, and the order in which the keys were inserted. */
  datatype Store<P> = Store(result: map<Key, P>, order: seq<Key>)

  /** Each key is inserted once, and the inserted keys are exactly the keys with a result. */
  ghost predicate Valid<P>(s: Store<P>) {
    && (forall i, j :: 0 <= i < j < |s.order| ==> s.order[i] != s.order[j])
    && (forall k :: k in s.result <==> k in s.order)
  }

  const Empty: Store<string> := Store(map[], [])

  /** A key whose fetch would be tried (it has a second field) and would succeed. */
  predicate Fetchable<P>(k: Key, fetch: string -> Option<P>) {
    |k| >= 2 && fetch(k[1]).Some?
  }

  // ---------------------------------------------------------------------
  // One worker, as a function of its input
  // ---------------------------------------------------------------------

  /**
   * One iteration for task `t`: skip a key that already has a result; drop a task with fewer
   * than two fields; otherwise fetch the second field and store the payload if there is one.
   */
  function Step<P>(s: Store<P>, t: Task, fetch: string -> Option<P>): Store<P> {
    var k := IdentityKey(t);
    if k in s.result || |k| < 2 then s
    else match fetch(k[1])
      case None => s
      case Some(p) => Store(s.result[k := p], s.order + [k])
  }

  /** The keys whose payload `Step` asks the fetcher for. */
  function StepCalls<P>(s: Store<P>, t: Task): seq<Key> {
    var k := IdentityKey(t);
    if k in s.result || |k| < 2 then [] else [k]
  }

  /** Draining the queue from its head. */
  function Drain<P>(s: Store<P>, tasks: seq<Task>, fetch: string -> Option<P>): Store<P>
    decreases |tasks|
  {
    if tasks == [] then s else Drain(Step(s, tasks[0], fetch), tasks[1..], fetch)
  }

  /** The keys fetched while draining, in order. */
  function DrainCalls<P>(s: Store<P>, tasks: seq<Task>, fetch: string -> Option<P>): seq<Key>
    decreases |tasks|
  {
    if tasks == [] then []
    else StepCalls(s, tasks[0]) + DrainCalls(Step(s, tasks[0], fetch), tasks[1..], fetch)
  }

  /** The keys of the tasks whose fetch succeeds. */
  function FetchableKeys<P>(tasks: seq<Task>, fetch: string -> Option<P>): set<Key> {
    set i | 0 <= i < |tasks| && Fetchable(IdentityKey(tasks[i]), fetch) :: IdentityKey(tasks[i])
  }

  /** The identity keys of a task list, in order. */
  function Keys(tasks: seq<Task>): (ks: seq<Key>)
    ensures |ks| == |tasks| && forall i :: 0 <= i < |tasks| ==> ks[i] == IdentityKey(tasks[i])
  {
    seq(|tasks|, i requires 0 <= i < |tasks| => IdentityKey(tasks[i]))
  }

  // ---------------------------------------------------------------------
  // What draining does
  // ---------------------------------------------------------------------

  /** Draining a non-empty queue is one step on its head, then draining the rest. */
  lemma DrainHead<P>(s: Store<P>, tasks: seq<Task>, fetch: string -> Option<P>)
    requires tasks != []
    ensures Drain(s, tasks, fetch) == Drain(Step(s, tasks[0], fetch), tasks[1..], fetch)
    ensures DrainCalls(s, tasks, fetch) == StepCalls(s, tasks[0]) + DrainCalls(Step(s, tasks[0], fetch), tasks[1..], fetch)
  {
  }

  lemma FetchableKeysCons<P>(tasks: seq<Task>, fetch: string -> Option<P>)
    requires tasks != []
    ensures FetchableKeys(tasks, fetch) ==
      FetchableKeys(tasks[1..], fetch)
        + (if Fetchable(IdentityKey(tasks[0]), fetch) then {IdentityKey(tasks[0])} else {})
  {
    var rest := tasks[1..];
    forall k | k in FetchableKeys(tasks, fetch)
      ensures k in FetchableKeys(rest, fetch) || (Fetchable(k, fetch) && k == IdentityKey(tasks[0]))
    {
      var i :| 0 <= i < |tasks| && Fetchable(IdentityKey(tasks[i]), fetch) && k == IdentityKey(tasks[i]);
      if i > 0 {
        assert rest[i - 1] == tasks[i];
      }
    }
    forall k | k in FetchableKeys(rest, fetch) ensures k in FetchableKeys(tasks, fetch) {
      var i :| 0 <= i < |rest| && Fetchable(IdentityKey(rest[i]), fetch) && k == IdentityKey(rest[i]);
      assert tasks[i + 1] == rest[i];
    }
  }

  /**
   * Failure isolation: after draining, the keys with a result are the keys that had one
   * before and the keys of the tasks whose fetch succeeds; a failed fetch costs only its own
   * entry.
   */
  lemma {:induction false} DrainKeys<P>(s: Store<P>, tasks: seq<Task>, fetch: string -> Option<P>)
    ensures Drain(s, tasks, fetch).result.Keys == s.result.Keys + FetchableKeys(tasks, fetch)
    decreases |tasks|
  {
    if tasks != [] {
      DrainKeys(Step(s, tasks[0], fetch), tasks[1..], fetch);
      FetchableKeysCons(tasks, fetch);
    }
  }

  /**
   * Draining never overwrites a result, and every new result is the payload fetched for the
   * key's second field.
   */
  lemma {:induction false} DrainValues<P>(s: Store<P>, tasks: seq<Task>, fetch: string -> Option<P>)
    ensures forall k :: k in s.result ==> k in Drain(s, tasks, fetch).result && Drain(s, tasks, fetch).result[k] == s.result[k]
    ensures forall k :: k in Drain(s, tasks, fetch).result && k !in s.result ==>
      Fetchable(k, fetch) && Drain(s, tasks, fetch).result[k] == fetch(k[1]).value
    decreases |tasks|
  {
    if tasks != [] {
      DrainValues(Step(s, tasks[0], fetch), tasks[1..], fetch);
    }
  }

  /** Each key with a result was inserted exactly once. */
  lemma {:induction false} DrainValid<P>(s: Store<P>, tasks: seq<Task>, fetch: string -> Option<P>)
    requires Valid(s)
    ensures Valid(Drain(s, tasks, fetch))
    decreases |tasks|
  {
    if tasks != [] {
      var s' := Step(s, tasks[0], fetch);
      assert Valid(s') by {
        var k := IdentityKey(tasks[0]);
        if s' != s {
          assert s'.order == s.order + [k] && k !in s.order;
        }
      }
      DrainValid(s', tasks[1..], fetch);
    }
  }

  /**
   * How often a key is fetched: never when it already has a result or lacks a second field;
   * once when its fetch succeeds and some task has it, however many tasks do; once per task
   * when its fetch fails.
   */
  lemma {:induction false} DrainCallCount<P>(s: Store<P>, tasks: seq<Task>, fetch: string -> Option<P>, k: Key)
    ensures k in s.result || |k| < 2 ==> multiset(DrainCalls(s, tasks, fetch))[k] == 0
    ensures k !in s.result && Fetchable(k, fetch) ==>
      multiset(DrainCalls(s, tasks, fetch))[k] == if k in Keys(tasks) then 1 else 0
    ensures k !in s.result && |k| >= 2 && fetch(k[1]).None? ==>
      multiset(DrainCalls(s, tasks, fetch))[k] == multiset(Keys(tasks))[k]
    decreases |tasks|
  {
    if tasks != [] {
      var s' := Step(s, tasks[0], fetch);
      DrainCallCount(s', tasks[1..], fetch, k);
      CallCountHead(s, tasks, fetch, k);
    }
  }

  /** The count of `k` among the calls and the keys, split at the head of the queue. */
  lemma CallCountHead<P>(s: Store<P>, tasks: seq<Task>, fetch: string -> Option<P>, k: Key)
    requires tasks != []
    ensures var s' := Step(s, tasks[0], fetch);
      && multiset(DrainCalls(s, tasks, fetch))[k]
         == multiset(StepCalls(s, tasks[0]))[k] + multiset(DrainCalls(s', tasks[1..], fetch))[k]
      && multiset(Keys(tasks))[k] == multiset([IdentityKey(tasks[0])])[k] + multiset(Keys(tasks[1..]))[k]
      && (k in Keys(tasks) <==> k == IdentityKey(tasks[0]) || k in Keys(tasks[1..]))
  {
    DrainHead(s, tasks, fetch);
    assert Keys(tasks) == [IdentityKey(tasks[0])] + Keys(tasks[1..]);
  }

  // ---------------------------------------------------------------------
  // The worker as written: a task with fewer than two fields
  // ---------------------------------------------------------------------

  /** Where a worker stops: the store, the tasks it left in the queue, and whether it died. */
  datatype Outcome<P> = Outcome(store: Store<P>, rest: seq<Task>, crashed: bool)

  /**
   * The loop as written: a task whose key has fewer than two fields and no result makes the
   * worker read the key's second field both in the `try` block and again in the `except`
   * handler, so the error escapes and the worker ends with the remaining tasks still queued.
   */
  function DrainAsWritten<P>(s: Store<P>, tasks: seq<Task>, fetch: string -> Option<P>): Outcome<P>
    decreases |tasks|
  {
    if tasks == [] then Outcome(s, [], false)
    else
      var k := IdentityKey(tasks[0]);
      if k !in s.result && |k| < 2 then Outcome(s, tasks[1..], true)
      else DrainAsWritten(Step(s, tasks[0], fetch), tasks[1..], fetch)
  }

  /** The keys the loop as written fetches, in order, before it ends or dies. */
  function AsWrittenCalls<P>(s: Store<P>, tasks: seq<Task>, fetch: string -> Option<P>): seq<Key>
    decreases |tasks|
  {
    if tasks == [] then []
    else
      var k := IdentityKey(tasks[0]);
      if k !in s.result && |k| < 2 then []
      else StepCalls(s, tasks[0]) + AsWrittenCalls(Step(s, tasks[0], fetch), tasks[1..], fetch)
  }

  /**
   * When every task has at least two fields, the loop as written drains like the corrected one
   * and makes the same requests.
   */
  lemma {:induction false} AsWrittenAgrees<P>(s: Store<P>, tasks: seq<Task>, fetch: string -> Option<P>)
    requires forall i :: 0 <= i < |tasks| ==> |tasks[i]| >= 2
    ensures DrainAsWritten(s, tasks, fetch) == Outcome(Drain(s, tasks, fetch), [], false)
    ensures AsWrittenCalls(s, tasks, fetch) == DrainCalls(s, tasks, fetch)
    decreases |tasks|
  {
    if tasks != [] {
      AsWrittenAgrees(Step(s, tasks[0], fetch), tasks[1..], fetch);
    }
  }

  /** A queue whose head does not kill the worker is one step on its head, then the rest. */
  lemma AsWrittenHead<P>(s: Store<P>, tasks: seq<Task>, fetch: string -> Option<P>)
    requires tasks != [] && !(IdentityKey(tasks[0]) !in s.result && |IdentityKey(tasks[0])| < 2)
    ensures DrainAsWritten(s, tasks, fetch) == DrainAsWritten(Step(s, tasks[0], fetch), tasks[1..], fetch)
    ensures AsWrittenCalls(s, tasks, fetch)
      == StepCalls(s, tasks[0]) + AsWrittenCalls(Step(s, tasks[0], fetch), tasks[1..], fetch)
  {
  }

  /**
   * A one-field task in front of a well-formed one: the loop as written dies on the first and
   * never fetches the second, whose key is then missing; the corrected loop stores it.
   */
  lemma AsWrittenLosesLaterTasks(fetch: string -> Option<string>)
    requires fetch("BBB.N").Some?
    ensures var bad: Task := [("name", "Acme")];
      var good: Task := [("name", "Beta"), ("ric", "BBB.N")];
      && DrainAsWritten(Empty, [bad, good], fetch) == Outcome(Empty, [good], true)
      && ["Beta", "BBB.N"] !in DrainAsWritten(Empty, [bad, good], fetch).store.result
      && Drain(Empty, [bad, good], fetch).result == map[["Beta", "BBB.N"] := fetch("BBB.N").value]
  {
    var bad: Task := [("name", "Acme")];
    var good: Task := [("name", "Beta"), ("ric", "BBB.N")];
    assert IdentityKey(bad) == ["Acme"];
    var k := IdentityKey(good);
    assert k == ["Beta", "BBB.N"];
    assert [bad, good][1..] == [good];
    assert Step(Empty, bad, fetch) == Empty;
    assert Step(Empty, good, fetch) == Store(map[k := fetch("BBB.N").value], [k]);
    assert Drain(Empty, [bad, good], fetch) == Drain(Empty, [good], fetch);
    assert DrainAsWritten(Empty, [bad, good], fetch) == Outcome(Empty, [good], true);
    assert Drain(Empty, [good], fetch) == Drain(Step(Empty, good, fetch), [], fetch);
  }

  // ---------------------------------------------------------------------
  // The client
  // ---------------------------------------------------------------------

  datatype RunError = TickersUnavailable  // the ticker search request failed

  /** The client's state: the fetched descriptors, the task queue and the result dictionary. */
  class LsegClient<P> {
    var rics: seq<Task>
    var tasks: seq<Task>
    var result: map<Key, P>
    /** The keys of `result` in insertion order, which is the dictionary's iteration order. */
    var order: seq<Key>
    /** The keys whose payload has been requested, in order. */
    ghost var calls: seq<Key>

    constructor()
      ensures rics == [] && tasks == [] && result == map[] && order == [] && calls == []
    {
      rics := [];
      tasks := [];
      result := map[];
      order := [];
      calls := [];
    }

    function Current(): Store<P>
      reads this
    {
      Store(result, order)
    }

    /**
     * Takes tasks from the head of the queue until it is empty: one iteration per task, each
     * doing what `Step` says, so the result is `Drain` of the old state and the old queue.
     */
    method Worker(fetch: string -> Option<P>) returns (ghost iterations: nat)
      modifies this`tasks, this`result, this`order, this`calls
      ensures tasks == [] && iterations == |old(tasks)|
      ensures Current() == Drain(old(Current()), old(tasks), fetch)
      ensures calls == old(calls) + DrainCalls(old(Current()), old(tasks), fetch)
    {
      iterations := 0;
      while tasks != []
        invariant iterations + |tasks| == |old(tasks)|
        invariant Drain(Current(), tasks, fetch) == Drain(old(Current()), old(tasks), fetch)
        invariant calls + DrainCalls(Current(), tasks, fetch)
          == old(calls) + DrainCalls(old(Current()), old(tasks), fetch)
        decreases |tasks|
      {
        DrainHead(Current(), tasks, fetch);
        var ricData := tasks[0];
        tasks := tasks[1..];
        iterations := iterations + 1;
        Visit(ricData, fetch);
      }
    }

    /**
     * One iteration of the worker loop for the task `ricData`: skip a key that already has a
     * result or has no second field, otherwise request the payload and store it if there is one.
     */
    method Visit(ricData: Task, fetch: string -> Option<P>)
      modifies this`result, this`order, this`calls
      ensures Current() == Step(old(Current()), ricData, fetch)
      ensures calls == old(calls) + StepCalls(old(Current()), ricData)
    {
      var ric := IdentityKey(ricData);
      if ric in result {
        return;
      }
      if |ric| < 2 {
        return;
      }
      calls := calls + [ric];
      var data := fetch(ric[1]);
      if data.Some? {
        result := result[ric := data.value];
        order := order + [ric];
      }
    }

    /**
     * The loop as written, which dies on a task with fewer than two fields and no result: its
     * state, the tasks it leaves queued and the requests it makes are those of
     * `DrainAsWritten` and `AsWrittenCalls`.
     */
    method WorkerAsWritten(fetch: string -> Option<P>) returns (crashed: bool)
      modifies this`tasks, this`result, this`order, this`calls
      ensures Outcome(Current(), tasks, crashed) == DrainAsWritten(old(Current()), old(tasks), fetch)
      ensures calls == old(calls) + AsWrittenCalls(old(Current()), old(tasks), fetch)
    {
      crashed := false;
      while tasks != []
        invariant DrainAsWritten(Current(), tasks, fetch) == DrainAsWritten(old(Current()), old(tasks), fetch)
        invariant calls + AsWrittenCalls(Current(), tasks, fetch)
          == old(calls) + AsWrittenCalls(old(Current()), old(tasks), fetch)
        decreases |tasks|
      {
        ghost var before, queue := Current(), tasks;
        var ricData := tasks[0];
        var ric := IdentityKey(ricData);
        if ric !in result && |ric| < 2 {
          assert AsWrittenCalls(before, queue, fetch) == [];
          assert calls + [] == calls;
          tasks := tasks[1..];
          crashed := true;
          return;
        }
        AsWrittenHead(before, queue, fetch);
        tasks := tasks[1..];
        Visit(ricData, fetch);
      }
    }

    /**
     * Fetches the descriptors (`None` when that request fails, which aborts the run before
     * any task is fetched), queues a copy of them, starts from an empty result, drains the
     * queue and returns a copy of the result.
     */
    method Run(tickers: Option<seq<Task>>, fetch: string -> Option<P>) returns (r: Result<map<Key, P>, RunError>)
      modifies this
      ensures tickers.None? ==> r == Failure(TickersUnavailable) && unchanged(this)
      ensures tickers.Some? ==>
        && rics == tickers.value && tasks == []
        && Current() == Drain(Store(map[], []), tickers.value, fetch)
        && calls == old(calls) + DrainCalls(Store(map[], []), tickers.value, fetch)
        && r == Success(result)
    {
      if tickers.None? {
        return Failure(TickersUnavailable);
      }
      rics := tickers.value;
      tasks := rics;
      result := map[];
      order := [];
      var _ := Worker(fetch);
      return Success(result);
    }
  }

  // ---------------------------------------------------------------------
  // Runs on small inputs
  // ---------------------------------------------------------------------

  /** Everything a run from an empty result guarantees about its result and its fetches. */
  lemma RunGuarantees<P>(tasks: seq<Task>, fetch: string -> Option<P>)
    ensures var s := Drain(Store(map[], []), tasks, fetch);
      && Valid(s)
      && s.result.Keys == FetchableKeys(tasks, fetch)
      && (forall k :: k in s.result ==> s.result[k] == fetch(k[1]).value)
      && (forall k :: Fetchable(k, fetch) && k in Keys(tasks) ==>
            multiset(DrainCalls(Store(map[], []), tasks, fetch))[k] == 1)
  {
    var e: Store<P> := Store(map[], []);
    DrainValid(e, tasks, fetch);
    DrainKeys(e, tasks, fetch);
    DrainValues(e, tasks, fetch);
    forall k | Fetchable(k, fetch) && k in Keys(tasks)
      ensures multiset(DrainCalls(e, tasks, fetch))[k] == 1
    {
      DrainCallCount(e, tasks, fetch, k);
    }
  }

  /** Two tasks with the same key: one entry, fetched once. */
  lemma DuplicateTaskFetchedOnce<P>(t: Task, fetch: string -> Option<P>)
    requires Fetchable(IdentityKey(t), fetch)
    ensures var k := IdentityKey(t);
      && Drain(Store(map[], []), [t, t], fetch) == Store(map[k := fetch(k[1]).value], [k])
      && DrainCalls(Store(map[], []), [t, t], fetch) == [k]
  {
    var e: Store<P> := Store(map[], []);
    var k := IdentityKey(t);
    var s := Step(e, t, fetch);
    assert s == Store(map[k := fetch(k[1]).value], [k]);
    assert [t, t][1..] == [t];
    assert Step(s, t, fetch) == s;
    assert Drain(s, [t], fetch) == Drain(s, [], fetch);
    assert DrainCalls(s, [t], fetch) == [];
    assert DrainCalls(e, [t, t], fetch) == [k] + DrainCalls(s, [t], fetch);
  }

  /** One fetch fails: its task is left out and the other one is kept. */
  lemma FailedFetchIsolated<P>(fetch: string -> Option<P>)
    requires fetch("AAA.O").Some? && fetch("BAD.X").None?
    ensures var good: Task := [("id", "1"), ("code", "AAA.O")];
      var bad: Task := [("id", "2"), ("code", "BAD.X")];
      Drain(Store(map[], []), [good, bad], fetch).result == map[["1", "AAA.O"] := fetch("AAA.O").value]
  {
    var good: Task := [("id", "1"), ("code", "AAA.O")];
    var bad: Task := [("id", "2"), ("code", "BAD.X")];
    var e: Store<P> := Store(map[], []);
    assert IdentityKey(good) == ["1", "AAA.O"];
    assert IdentityKey(bad) == ["2", "BAD.X"];
    var s := Step(e, good, fetch);
    assert s.result == map[["1", "AAA.O"] := fetch("AAA.O").value];
    assert [good, bad][1..] == [bad];
    assert Step(s, bad, fetch) == s;
    assert Drain(s, [bad], fetch) == Drain(Step(s, bad, fetch), [], fetch);
  }
}
