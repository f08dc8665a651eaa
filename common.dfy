/** Small vocabulary shared by the whole model: failure datatypes and the few
    JavaScript array operations the engine relies on (indexOf, splice(i, 1),
    the "push if absent" idiom) stated as functions on sequences. */
module Common {

  datatype Option<T> = None | Some(value: T)

  datatype Result<T, E> = Ok(value: T) | Err(error: E)

  /** No element occurs twice. */
  predicate NoDuplicates<T(==)>(s: seq<T>) {
    forall i, j :: 0 <= i < j < |s| ==> s[i] != s[j]
  }

  /** `Array.prototype.indexOf`: the first position of `x` in `s`, or -1. */
  function IndexOf<T(==)>(s: seq<T>, x: T): (i: int)
    ensures -1 <= i < |s|
    ensures i == -1 <==> x !in s
    ensures 0 <= i ==> s[i] == x && x !in s[..i]
  {
    if |s| == 0 then -1
    else if s[0] == x then 0
    else
      var j := IndexOf(s[1..], x);
      if j < 0 then -1
      else
        assert s[..j + 1] == [s[0]] + s[1..][..j];
        j + 1
  }

  /** `Array.prototype.splice(i, 1)`: `s` without its element at position `i`. */
  function RemoveAt<T>(s: seq<T>, i: nat): (r: seq<T>)
    requires i < |s|
    ensures |r| == |s| - 1
    ensures forall k :: 0 <= k < i ==> r[k] == s[k]
    ensures forall k :: i <= k < |r| ==> r[k] == s[k + 1]
    ensures forall y :: y in r ==> y in s
  {
    s[..i] + s[i + 1..]
  }

  /** Every occurrence of `x` filtered out of `s`, the rest in order. */
  function Without<T(==,!new)>(s: seq<T>, x: T): (r: seq<T>)
    ensures forall y :: y in r <==> y in s && y != x
  {
    if s == [] then []
    else if s[0] == x then Without(s[1..], x)
    else [s[0]] + Without(s[1..], x)
  }

  /** Every element of `xs` filtered out of `s`, the rest in order. */
  function WithoutAll<T(==,!new)>(s: seq<T>, xs: seq<T>): (r: seq<T>)
    ensures forall y :: y in r <==> y in s && y !in xs
  {
    if s == [] then []
    else if s[0] in xs then WithoutAll(s[1..], xs)
    else [s[0]] + WithoutAll(s[1..], xs)
  }

  lemma {:induction false} RemoveAtPreservesNoDuplicates<T>(s: seq<T>, i: nat)
    requires i < |s| && NoDuplicates(s)
    ensures NoDuplicates(RemoveAt(s, i))
    ensures forall y :: y in RemoveAt(s, i) <==> y in s && y != s[i]
  {
    var r := RemoveAt(s, i);
    forall y | y in s && y != s[i] ensures y in r {
      var k :| 0 <= k < |s| && s[k] == y;
      if k < i { assert r[k] == y; } else { assert r[k - 1] == y; }
    }
  }

  /** On a duplicate-free sequence, removing the first occurrence (indexOf and
      splice) removes every occurrence. */
  lemma {:induction false} RemoveFirstIsWithout<T(!new)>(s: seq<T>, x: T)
    requires NoDuplicates(s) && x in s
    ensures RemoveAt(s, IndexOf(s, x)) == Without(s, x)
  {
    if s[0] == x {
      WithoutAbsent(s[1..], x);
      assert RemoveAt(s, 0) == s[1..];
    } else {
      RemoveFirstIsWithout(s[1..], x);
      assert RemoveAt(s, IndexOf(s, x)) == [s[0]] + RemoveAt(s[1..], IndexOf(s[1..], x));
    }
  }

  lemma {:induction false} WithoutAbsent<T(!new)>(s: seq<T>, x: T)
    requires x !in s
    ensures Without(s, x) == s
  {
    if s != [] { WithoutAbsent(s[1..], x); }
  }

  /** Filtering out nothing keeps the sequence. */
  lemma {:induction false} WithoutNothing<T(!new)>(s: seq<T>)
    ensures WithoutAll(s, []) == s
  {
    if s != [] {
      WithoutNothing(s[1..]);
    }
  }

  /** Filtering out `x` and then `xs` is filtering out `[x] + xs`. */
  lemma {:induction false} WithoutThenWithoutAll<T(!new)>(s: seq<T>, x: T, xs: seq<T>)
    ensures WithoutAll(Without(s, x), xs) == WithoutAll(s, [x] + xs)
  {
    if s != [] {
      WithoutThenWithoutAll(s[1..], x, xs);
      if s[0] != x {
        assert ([s[0]] + Without(s[1..], x))[1..] == Without(s[1..], x);
      }
    }
  }

  /** In a duplicate-free sequence, the element at `j` is first found at `j`. */
  lemma IndexOfDistinct<T>(s: seq<T>, j: nat)
    requires j < |s| && NoDuplicates(s)
    ensures IndexOf(s, s[j]) == j
  {
  }

  /** The elements of `s` with later repetitions dropped: what a loop builds that
      pushes each element onto an initially empty list unless `indexOf` finds it. */
  function Dedup<T(==,!new)>(s: seq<T>): (r: seq<T>)
    ensures NoDuplicates(r)
    ensures forall x :: x in r <==> x in s
  {
    if s == [] then []
    else
      var d := Dedup(s[..|s| - 1]);
      var x := s[|s| - 1];
      assert forall y :: y in s <==> y in s[..|s| - 1] || y == x;
      if IndexOf(d, x) < 0 then d + [x] else d
  }

  /** Appending one element to the input extends `Dedup` as the loop does. */
  lemma DedupSnoc<T(!new)>(s: seq<T>, x: T)
    ensures Dedup(s + [x]) == if x in s then Dedup(s) else Dedup(s) + [x]
  {
    assert (s + [x])[..|s + [x]| - 1] == s;
  }

  /** `Dedup` keeps elements in the order of their first occurrence in `s`. */
  lemma {:induction false} DedupFirstOccurrenceOrder<T(!new)>(s: seq<T>)
    ensures forall i, j :: 0 <= i < j < |Dedup(s)| ==> IndexOf(s, Dedup(s)[i]) < IndexOf(s, Dedup(s)[j])
  {
    if s != [] {
      var p := s[..|s| - 1];
      var x := s[|s| - 1];
      DedupFirstOccurrenceOrder(p);
      assert s == p + [x];
      forall y | y in p ensures IndexOf(s, y) == IndexOf(p, y) {
        IndexOfPrefix(p, x, y);
      }
      if x !in p {
        IndexOfPrefix(p, x, x);
        assert Dedup(s) == Dedup(p) + [x];
        forall i | 0 <= i < |Dedup(p)| ensures IndexOf(s, Dedup(p)[i]) < |p| {
          assert Dedup(p)[i] in p;
        }
      } else {
        assert Dedup(s) == Dedup(p);
      }
    }
  }

  lemma {:induction false} IndexOfPrefix<T>(p: seq<T>, x: T, y: T)
    ensures y in p ==> IndexOf(p + [x], y) == IndexOf(p, y)
    ensures y !in p && y == x ==> IndexOf(p + [x], y) == |p|
  {
    if p != [] {
      IndexOfPrefix(p[1..], x, y);
      assert (p + [x])[1..] == p[1..] + [x];
    }
  }

  /** Some element of a non-empty set: how a loop over the keys of a map
      (`Object.keys`) is written when the order of the keys does not matter. */
  method AnyElement<T>(s: set<T>) returns (x: T)
    requires s != {}
    ensures x in s
  {
    x :| x in s;
  }

  /** A string made of decimal digits only. */
  predicate IsDecimal(s: string) {
    forall k :: 0 <= k < |s| ==> '0' <= s[k] <= '9'
  }

  /** The number a string of decimal digits denotes, most significant digit
      first. */
  function DigitsValue(s: string): nat
    requires IsDecimal(s)
  {
    if s == [] then 0 else DigitsValue(s[..|s| - 1]) * 10 + (s[|s| - 1] as int - '0' as int)
  }

  /** Decimal text of a natural number, as JavaScript's string concatenation
      prints it: digits only, no leading zero, and denoting `n`. */
  function NatToString(n: nat): (r: string)
    ensures |r| > 0 && IsDecimal(r)
    ensures DigitsValue(r) == n
    ensures r[0] == '0' ==> n == 0 && r == "0"
    decreases n
  {
    var d := [(48 + n % 10) as char];
    if n < 10 then d
    else
      var h := NatToString(n / 10);
      assert (h + d)[..|h + d| - 1] == h;
      h + d
  }

  /** Decimal text of an integer, with a leading minus sign when negative
      followed by the digits of its magnitude. */
  function IntToString(n: int): (r: string)
    ensures |r| > 0
    ensures (r[0] == '-') <==> n < 0
    ensures n >= 0 ==> IsDecimal(r) && DigitsValue(r) == n
    ensures n < 0 ==> |r| > 1 && IsDecimal(r[1..]) && DigitsValue(r[1..]) == -n
  {
    if n < 0 then
      var t := NatToString(-n);
      assert ("-" + t)[1..] == t;
      "-" + t
    else NatToString(n)
  }
}
