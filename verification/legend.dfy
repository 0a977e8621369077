/** The Legend sheet: `sorted(listref_counter.items())`, one `(code, count)`
    row per code the chart counted, in code order. */
module Legend {
  import opened Counter
  import opened Conversion

  /** Python's `<` on strings: lexicographic by code point, a proper prefix
      before any extension of it. */
  predicate Below(a: string, b: string)
  {
    if a == [] then b != []
    else if b == [] then false
    else if a[0] != b[0] then a[0] < b[0]
    else Below(a[1..], b[1..])
  }

  lemma {:induction false} BelowIrreflexive(a: string)
    ensures !Below(a, a)
  {
    if a != [] {
      BelowIrreflexive(a[1..]);
    }
  }

  lemma {:induction false} BelowAsymmetric(a: string, b: string)
    ensures Below(a, b) ==> !Below(b, a)
  {
    if a != [] && b != [] && a[0] == b[0] {
      BelowAsymmetric(a[1..], b[1..]);
    }
  }

  /** Any two different codes are ordered one way or the other, so sorting
      the counter's items never needs the counts. */
  lemma {:induction false} BelowTotal(a: string, b: string)
    ensures a == b || Below(a, b) || Below(b, a)
  {
    if a != [] && b != [] && a[0] == b[0] {
      BelowTotal(a[1..], b[1..]);
      if a[1..] == b[1..] {
        assert a == [a[0]] + a[1..] && b == [b[0]] + b[1..];
      }
    }
  }

  lemma {:induction false} BelowTransitive(a: string, b: string, c: string)
    requires Below(a, b) && Below(b, c)
    ensures Below(a, c)
  {
    if a != [] && a[0] == b[0] && b[0] == c[0] {
      BelowTransitive(a[1..], b[1..], c[1..]);
    }
  }

  /** One legend row: a code and its count. */
  type Item = (string, nat)

  /** The items are in strictly increasing code order. */
  predicate Sorted(items: seq<Item>)
  {
    forall i, j :: 0 <= i < j < |items| ==> Below(items[i].0, items[j].0)
  }

  /** Places an item with a new code at its place in a sorted list. */
  function InsertSorted(items: seq<Item>, x: Item): (r: seq<Item>)
    requires Sorted(items)
    requires forall i :: 0 <= i < |items| ==> items[i].0 != x.0
    ensures Sorted(r)
    ensures forall it :: it in r <==> it in items || it == x
    ensures |r| == |items| + 1
  {
    if items == [] then [x]
    else if Below(x.0, items[0].0) then
      SortedCons(x, items);
      [x] + items
    else
      BelowTotal(x.0, items[0].0);
      var rest := InsertSorted(items[1..], x);
      assert forall it :: it in items[1..] ==> it in items;
      SortedTail(items);
      forall it | it in rest
        ensures Below(items[0].0, it.0)
      {
        if it != x {
          var i :| 0 <= i < |items[1..]| && items[1..][i] == it;
          assert items[i + 1] == it;
        }
      }
      SortedConsAll(items[0], rest);
      assert items == [items[0]] + items[1..];
      [items[0]] + rest
  }

  lemma SortedTail(items: seq<Item>)
    requires Sorted(items) && items != []
    ensures Sorted(items[1..])
  {
    forall i, j | 0 <= i < j < |items[1..]|
      ensures Below(items[1..][i].0, items[1..][j].0)
    {
      assert items[1..][i] == items[i + 1] && items[1..][j] == items[j + 1];
    }
  }

  lemma SortedCons(x: Item, items: seq<Item>)
    requires Sorted(items) && items != [] && Below(x.0, items[0].0)
    ensures Sorted([x] + items)
  {
    forall it | it in items
      ensures Below(x.0, it.0)
    {
      var j :| 0 <= j < |items| && items[j] == it;
      if j > 0 {
        BelowTransitive(x.0, items[0].0, it.0);
      }
    }
    SortedConsAll(x, items);
  }

  lemma SortedConsAll(x: Item, items: seq<Item>)
    requires Sorted(items)
    requires forall it :: it in items ==> Below(x.0, it.0)
    ensures Sorted([x] + items)
  {
    var r := [x] + items;
    forall i, j | 0 <= i < j < |r|
      ensures Below(r[i].0, r[j].0)
    {
      assert r[j] == items[j - 1];
      if i > 0 {
        assert r[i] == items[i - 1];
      }
    }
  }

  /** `sorted(listref_counter.items())`: every entry of the counter exactly
      once, in increasing code order. */
  method SortedItems(counter: map<string, nat>) returns (items: seq<Item>)
    ensures Sorted(items)
    ensures forall it :: it in items <==> it.0 in counter && counter[it.0] == it.1
    ensures |items| == |counter|
  {
    var keys := counter.Keys;
    items := [];
    while keys != {}
      invariant keys <= counter.Keys
      invariant Sorted(items)
      invariant forall it :: it in items <==> it.0 in counter.Keys - keys && counter[it.0] == it.1
      invariant |items| == |counter.Keys - keys|
      decreases |keys|
    {
      var k :| k in keys;
      forall i | 0 <= i < |items|
        ensures items[i].0 != k
      {
        assert items[i] in items;
      }
      items := InsertSorted(items, (k, counter[k]));
      assert counter.Keys - (keys - {k}) == (counter.Keys - keys) + {k};
      keys := keys - {k};
    }
    assert counter.Keys - keys == counter.Keys;
  }

  /** A sorted item list is determined by its items: whatever order the
      counter's entries are visited in, the legend comes out the same. */
  lemma {:induction false} SortedUnique(a: seq<Item>, b: seq<Item>)
    requires Sorted(a) && Sorted(b)
    requires forall it :: it in a <==> it in b
    ensures a == b
    decreases |a|
  {
    if a != [] {
      assert a[0] in b;
    }
    if b != [] {
      assert b[0] in a;
    }
    if a != [] {
      var i :| 0 <= i < |a| && a[i] == b[0];
      var j :| 0 <= j < |b| && b[j] == a[0];
      BelowAsymmetric(a[0].0, b[0].0);
      BelowIrreflexive(a[0].0);
      assert i == 0;
      SortedTail(a);
      SortedTail(b);
      forall it
        ensures it in a[1..] <==> it in b[1..]
      {
        NotHeadInTail(a, it);
        NotHeadInTail(b, it);
      }
      SortedUnique(a[1..], b[1..]);
      assert a == [a[0]] + a[1..] && b == [b[0]] + b[1..];
    }
  }

  lemma NotHeadInTail(a: seq<Item>, it: Item)
    requires Sorted(a) && a != []
    ensures it in a[1..] <==> it in a && it != a[0]
  {
    if it in a[1..] {
      var k :| 0 <= k < |a[1..]| && a[1..][k] == it;
      assert a[k + 1] == it;
      assert Below(a[0].0, a[k + 1].0);
      BelowIrreflexive(a[0].0);
    }
    if it in a && it != a[0] {
      var k :| 0 <= k < |a| && a[k] == it;
      assert a[1..][k - 1] == it;
    }
  }

  /** The legend lists each code of the emitting rows once, with the number
      of times the code occurs there, and never the empty code or a zero
      count. The counter of a converted chart is this tally of its codes. */
  lemma LegendCountsCodes(chart: Chart, items: seq<Item>)
    requires forall it :: it in items <==>
      it.0 in Tally(map[], ChartCodes(chart.rows)) && Tally(map[], ChartCodes(chart.rows))[it.0] == it.1
    ensures forall it :: it in items ==>
      && it.0 != "" && it.1 >= 1
      && it.1 == multiset(ChartCodes(chart.rows))[it.0]
  {
    ChartTally(chart.rows);
  }
}
