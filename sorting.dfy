/**
 * The two key sorts of the presenter: `Object.keys(nonAisles).sort()` (text
 * order) and `Object.keys(aisles).sort((a, b) => a - b)` (numeric order). The
 * engine's sort algorithm is not modelled; these insertion sorts produce the one
 * ordering a total order allows on distinct keys.
 */
module Sorting {
  import opened Text

  /** No element occurs twice, as with the keys of an object. */
  predicate Distinct<T(==)>(s: seq<T>) {
    forall i, j :: 0 <= i < j < |s| ==> s[i] != s[j]
  }

  /** Every earlier key is text-smaller than every later one. */
  predicate TextIncreasing(s: seq<string>) {
    forall i, j :: 0 <= i < j < |s| ==> TextLess(s[i], s[j])
  }

  predicate NumbersIncreasing(s: seq<nat>) {
    forall i, j :: 0 <= i < j < |s| ==> s[i] < s[j]
  }

  function InsertText(k: string, s: seq<string>): (r: seq<string>)
    ensures multiset(r) == multiset(s) + multiset{k}
    decreases |s|
  {
    if s == [] then [k]
    else if TextLess(k, s[0]) then [k] + s
    else assert s == [s[0]] + s[1..]; [s[0]] + InsertText(k, s[1..])
  }

  lemma {:induction false} InsertTextIncreasing(k: string, s: seq<string>)
    requires TextIncreasing(s) && k !in s
    ensures TextIncreasing(InsertText(k, s))
    decreases |s|
  {
    if s != [] {
      if TextLess(k, s[0]) {
        forall j | 0 < j < |s| ensures TextLess(k, s[j]) {
          TextLessTransitive(k, s[0], s[j]);
        }
      } else {
        assert s == [s[0]] + s[1..];
        TextLessTotal(k, s[0]);
        InsertTextIncreasing(k, s[1..]);
        var r' := InsertText(k, s[1..]);
        forall j | 0 <= j < |r'| ensures TextLess(s[0], r'[j]) {
          assert r'[j] in multiset(r');
          if r'[j] != k {
            var m :| 0 <= m < |s[1..]| && s[1..][m] == r'[j];
            assert s[m + 1] == r'[j];
          }
        }
      }
    }
  }

  function SortText(s: seq<string>): (r: seq<string>)
    ensures multiset(r) == multiset(s)
    decreases |s|
  {
    if s == [] then [] else assert s == [s[0]] + s[1..]; InsertText(s[0], SortText(s[1..]))
  }

  /** Sorting distinct keys gives them in strictly increasing text order. */
  lemma {:induction false} SortTextIncreasing(s: seq<string>)
    requires Distinct(s)
    ensures TextIncreasing(SortText(s))
    decreases |s|
  {
    if s != [] {
      SortTextIncreasing(s[1..]);
      assert s[0] !in multiset(s[1..]);
      InsertTextIncreasing(s[0], SortText(s[1..]));
    }
  }

  function InsertNumber(n: nat, s: seq<nat>): (r: seq<nat>)
    ensures multiset(r) == multiset(s) + multiset{n}
    decreases |s|
  {
    if s == [] then [n]
    else if n < s[0] then [n] + s
    else assert s == [s[0]] + s[1..]; [s[0]] + InsertNumber(n, s[1..])
  }

  lemma {:induction false} InsertNumberIncreasing(n: nat, s: seq<nat>)
    requires NumbersIncreasing(s) && n !in s
    ensures NumbersIncreasing(InsertNumber(n, s))
    decreases |s|
  {
    if s != [] && n > s[0] {
      assert s == [s[0]] + s[1..];
      InsertNumberIncreasing(n, s[1..]);
      var r' := InsertNumber(n, s[1..]);
      forall j | 0 <= j < |r'| ensures s[0] < r'[j] {
        assert r'[j] in multiset(r');
      }
    }
  }

  function SortNumbers(s: seq<nat>): (r: seq<nat>)
    ensures multiset(r) == multiset(s)
    decreases |s|
  {
    if s == [] then [] else assert s == [s[0]] + s[1..]; InsertNumber(s[0], SortNumbers(s[1..]))
  }

  /** Sorting distinct aisle numbers gives them in strictly increasing order. */
  lemma {:induction false} SortNumbersIncreasing(s: seq<nat>)
    requires Distinct(s)
    ensures NumbersIncreasing(SortNumbers(s))
    decreases |s|
  {
    if s != [] {
      SortNumbersIncreasing(s[1..]);
      assert s[0] !in multiset(s[1..]);
      InsertNumberIncreasing(s[0], SortNumbers(s[1..]));
    }
  }
}
