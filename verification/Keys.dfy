/** The keys of a map in sorted order. */
module Keys {
  import opened Cardinality
  import opened Text

  predicate IsLeast(keys: set<string>, x: string)
  {
    x in keys && forall y :: y in keys ==> Leq(x, y)
  }

  lemma {:induction false} LeastExists(keys: set<string>) returns (x: string)
    requires keys != {}
    ensures IsLeast(keys, x)
  {
    var y :| y in keys;
    if keys == {y} {
      x := y;
      LeqReflexive(x);
    } else {
      var rest := keys - {y};
      var z := LeastExists(rest);
      LeqTotal(y, z);
      LeqReflexive(y);
      if Leq(y, z) {
        x := y;
        forall w | w in keys
          ensures Leq(y, w)
        {
          if w != y { LeqTransitive(y, z, w); }
        }
      } else {
        x := z;
      }
    }
  }

  lemma LeastIsUnique(keys: set<string>)
    requires keys != {}
    ensures exists x :: IsLeast(keys, x)
    ensures forall x, y :: IsLeast(keys, x) && IsLeast(keys, y) ==> x == y
  {
    var least := LeastExists(keys);
    forall x, y | IsLeast(keys, x) && IsLeast(keys, y)
      ensures x == y
    {
      LeqAntisymmetric(x, y);
    }
  }

  function LeastOf(keys: set<string>): (x: string)
    requires keys != {}
    ensures IsLeast(keys, x)
  {
    LeastIsUnique(keys);
    var x :| x in keys && IsLeast(keys, x);
    x
  }

  function SortedKeys(keys: set<string>): (sorted: seq<string>)
    ensures Elements(sorted) == keys
  {
    if keys == {} then []
    else
      ElementsOfConcat([LeastOf(keys)], SortedKeys(keys - {LeastOf(keys)}));
      [LeastOf(keys)] + SortedKeys(keys - {LeastOf(keys)})
  }

  lemma ElementsOfConcat(a: seq<string>, b: seq<string>)
    ensures Elements(a + b) == Elements(a) + Elements(b)
  {}

  lemma {:induction false} SortedIsUnique(a: seq<string>, keys: set<string>)
    requires Ascending(a) && Distinct(a) && Elements(a) == keys
    ensures a == SortedKeys(keys)
  {
    if a == [] {
    } else {
      assert a[0] in keys;
      var x := LeastOf(keys);
      HeadIsLeast(a, x);
      LeqAntisymmetric(a[0], x);
      assert Elements(a[1..]) == keys - {x} by {
        assert forall y :: y in a[1..] ==> y != a[0];
        assert a == [a[0]] + a[1..];
      }
      SortedIsUnique(a[1..], keys - {x});
    }
  }

  method SortKeys(keys: set<string>) returns (sorted: seq<string>)
    ensures sorted == SortedKeys(keys)
  {
    hide Ascending, SortedKeys;
    var collected: seq<string> := [];
    var remaining := keys;
    while remaining != {}
      invariant remaining <= keys && Distinct(collected) && Elements(collected) == keys - remaining
      decreases |remaining|
    {
      var key :| key in remaining;
      assert key !in collected by { assert key !in Elements(collected); }
      ElementsOfConcat(collected, [key]);
      collected := collected + [key];
      remaining := remaining - {key};
    }
    sorted := Sort(collected);
    SortIsAscendingPermutation(collected);
    PermutationKeeps(collected, sorted);
    SortedIsUnique(sorted, keys);
  }

  lemma PermutationKeeps(a: seq<string>, b: seq<string>)
    requires multiset(a) == multiset(b) && Distinct(a)
    ensures Distinct(b) && Elements(b) == Elements(a)
  {
    DistinctByCount(a);
    DistinctByCount(b);
    forall x
      ensures x in a <==> x in b
    {
      assert x in a <==> x in multiset(a);
      assert x in b <==> x in multiset(b);
    }
  }

  lemma {:induction false} SortedIsDistinct(keys: set<string>)
    ensures Distinct(SortedKeys(keys))
  {
    if keys != {} {
      var x := LeastOf(keys);
      SortedIsDistinct(keys - {x});
      var rest := SortedKeys(keys - {x});
      assert forall i :: 0 <= i < |rest| ==> rest[i] in Elements(rest);
    }
  }

  lemma {:induction false} SortedIsAscending(keys: set<string>)
    ensures Ascending(SortedKeys(keys))
  {
    if keys != {} {
      var x := LeastOf(keys);
      var rest := SortedKeys(keys - {x});
      SortedIsAscending(keys - {x});
      forall i | 0 <= i < |rest|
        ensures Leq(x, rest[i])
      {
        assert rest[i] in Elements(rest);
      }
    }
  }
}
