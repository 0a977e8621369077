/** The chart-wide `Counter` of listRef codes, as a map from code to count;
    a code that is not a key counts zero, as in a Python `Counter`. */
module Counter {

  function Count(m: map<string, nat>, k: string): nat
  {
    if k in m then m[k] else 0
  }

  /** `counter[code] += 1`. */
  function Bump(m: map<string, nat>, k: string): (r: map<string, nat>)
    ensures Count(r, k) == Count(m, k) + 1
    ensures forall j :: j != k ==> Count(r, j) == Count(m, j)
    ensures r.Keys == m.Keys + {k}
  {
    m[k := Count(m, k) + 1]
  }

  /** Bumps the counter once for each code, in order. */
  function Tally(m: map<string, nat>, codes: seq<string>): (r: map<string, nat>)
    ensures forall k :: Count(r, k) == Count(m, k) + multiset(codes)[k]
    ensures r.Keys == m.Keys + (set c | c in codes)
    decreases |codes|
  {
    if codes == [] then m
    else
      assert codes == [codes[0]] + codes[1..];
      Tally(Bump(m, codes[0]), codes[1..])
  }

  /** Counting one list of codes and then another is counting both together:
      threading the counter through successive cells loses nothing. */
  lemma {:induction false} TallyThreads(m: map<string, nat>, a: seq<string>, b: seq<string>)
    ensures Tally(Tally(m, a), b) == Tally(m, a + b)
    decreases |a|
  {
    if a != [] {
      var m1 := Bump(m, a[0]);
      assert a + b != [] && (a + b)[0] == a[0];
      assert (a + b)[1..] == a[1..] + b;
      assert Tally(m, a) == Tally(m1, a[1..]);
      assert Tally(m, a + b) == Tally(m1, a[1..] + b);
      TallyThreads(m1, a[1..], b);
    } else {
      assert a + b == b;
    }
  }

  /** A counter built from nothing holds exactly the codes seen, each with a
      count of at least one. */
  lemma TallyFresh(codes: seq<string>)
    ensures var r := Tally(map[], codes);
      forall k :: k in r ==> k in codes && r[k] == multiset(codes)[k] >= 1
  {
    var r := Tally(map[], codes);
    forall k | k in r
      ensures k in codes && r[k] == multiset(codes)[k] >= 1
    {
      assert k in (set c | c in codes);
      assert Count(r, k) == r[k];
    }
  }
}
