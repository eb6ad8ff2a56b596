/** `DatabaseDummy` of `core`: an append-only list of strings and a query for
    those that start with 'a'. */
module Dummy {

  predicate StartsWithA(s: string) {
    s != [] && s[0] == 'a'
  }

  /** `xs` is `ys` with some elements left out, the rest kept in order. */
  predicate IsSubsequence<T(==)>(xs: seq<T>, ys: seq<T>)
    decreases |ys|
  {
    xs == [] ||
    (ys != [] && ((xs[0] == ys[0] && IsSubsequence(xs[1..], ys[1..])) || IsSubsequence(xs, ys[1..])))
  }

  /** The elements of `data` that start with 'a', in their order, duplicates kept:
      an order-preserving subsequence of `data` holding each string that starts
      with 'a' as often as `data` does, and no other string (so never the empty one). */
  function StartingWithA(data: seq<string>): (r: seq<string>)
    ensures IsSubsequence(r, data)
    ensures forall i :: 0 <= i < |r| ==> StartsWithA(r[i])
    ensures forall x :: multiset(r)[x] == if StartsWithA(x) then multiset(data)[x] else 0
    ensures "" !in r
  {
    if data == [] then []
    else
      var rest := StartingWithA(data[1..]);
      assert data == [data[0]] + data[1..];
      if StartsWithA(data[0]) then
        assert ([data[0]] + rest)[1..] == rest;
        [data[0]] + rest
      else
        rest
  }

  /** The query distributes over concatenation. */
  lemma {:induction false} StartingWithAAppend(xs: seq<string>, ys: seq<string>)
    ensures StartingWithA(xs + ys) == StartingWithA(xs) + StartingWithA(ys)
  {
    if xs != [] {
      assert (xs + ys)[0] == xs[0];
      assert (xs + ys)[1..] == xs[1..] + ys;
      StartingWithAAppend(xs[1..], ys);
    } else {
      assert xs + ys == ys;
    }
  }

  class DatabaseDummy {
    var data: seq<string>

    /** `DatabaseDummy::store`: appends, and the query gains the new string at
        its end exactly when it starts with 'a'. */
    method Store(s: string)
      modifies this
      ensures data == old(data) + [s]
      ensures GetData() == old(GetData()) + (if StartsWithA(s) then [s] else [])
    {
      StartingWithAAppend(data, [s]);
      data := data + [s];
    }

    /** `DatabaseDummy::get_data`: reads the store and changes nothing. A string
        is in the result exactly when it is stored and starts with 'a', and the
        result is a subsequence of the store. */
    function GetData(): (r: seq<string>)
      reads this
      ensures forall x :: x in r <==> x in data && StartsWithA(x)
      ensures IsSubsequence(r, data)
    {
      var r := StartingWithA(data);
      assert forall x :: x in r <==> multiset(r)[x] > 0;
      assert forall x :: x in data <==> multiset(data)[x] > 0;
      r
    }
  }
}
