/** Runs of calls to a queue. */
module Queues {
  import opened Copies

  /** A call that appends items, or one that takes up to so many. */
  datatype Call<T> = WriteCall(items: seq<T>) | ReadCall(len: nat)

  /** What the calls of write stored. */
  function Inputs<T>(calls: seq<Call<T>>, results: seq<seq<T>>): seq<T>
    requires |results| <= |calls|
  {
    if results == [] then [] else
    var k := |results| - 1;
    Inputs(calls, results[..k]) + if calls[k].WriteCall? then results[k] else []
  }

  /** What the calls of read returned. */
  function Outputs<T>(calls: seq<Call<T>>, results: seq<seq<T>>): seq<T>
    requires |results| <= |calls|
  {
    if results == [] then [] else
    var k := |results| - 1;
    Outputs(calls, results[..k]) + if calls[k].ReadCall? then results[k] else []
  }

  /** One call more keeps the order. */
  lemma InOrder<T>(calls: seq<Call<T>>, results: seq<seq<T>>, result: seq<T>, begin: seq<T>, before: seq<T>,
      after: seq<T>)
    requires |results| < |calls|
    requires begin + Inputs(calls, results) == Outputs(calls, results) + before
    requires if calls[|results|].WriteCall? then after == before + result else before == result + after
    ensures begin + Inputs(calls, results + [result]) == Outputs(calls, results + [result]) + after
  {
    assert (results + [result])[..|results|] == results;
    Reassociate(begin, Inputs(calls, results), result);
    Reassociate(Outputs(calls, results), before, result);
    Reassociate(Outputs(calls, results), result, after);
  }

  lemma AppendedTo<T>(written: seq<T>, taken: seq<T>, before: seq<T>, items: seq<T>, after: seq<T>)
    requires written == taken + before && written + items == taken + after
    ensures after == before + items
  {
    Reassociate(taken, before, items);
    assert (taken + after)[|taken|..] == after && (taken + (before + items))[|taken|..] == before + items;
  }

  lemma TakenFrom<T>(written: seq<T>, taken: seq<T>, before: seq<T>, items: seq<T>, after: seq<T>)
    requires written == taken + before && written == taken + items + after
    ensures before == items + after
  {
    Reassociate(taken, items, after);
    assert (taken + before)[|taken|..] == before && (taken + (items + after))[|taken|..] == items + after;
  }
}
