/** Small helpers shared by the whole model: integer helpers and a stable
    filter over sequences (JavaScript's `Array.prototype.filter`). */
module Common {

  function Abs(d: int): (r: nat)
    ensures r == d || r == -d
  {
    if d < 0 then -d else d
  }

  function Max(a: int, b: int): (r: int)
    ensures r >= a && r >= b && (r == a || r == b)
  {
    if a < b then b else a
  }

  function Min(a: int, b: int): (r: int)
    ensures r <= a && r <= b && (r == a || r == b)
  {
    if a < b then a else b
  }

  /** Keeps the elements of `s` satisfying `keep`, in their original order. */
  function Filter<T(!new)>(s: seq<T>, keep: T -> bool): (r: seq<T>)
    ensures |r| <= |s|
    ensures forall e :: e in r <==> e in s && keep(e)
  {
    if s == [] then [] else (if keep(s[0]) then [s[0]] else []) + Filter(s[1..], keep)
  }

  /** Filtering distributes over concatenation: the relative order of kept
      elements is the order of the input. */
  lemma {:induction false} FilterAppend<T(!new)>(a: seq<T>, b: seq<T>, keep: T -> bool)
    ensures Filter(a + b, keep) == Filter(a, keep) + Filter(b, keep)
  {
    if a == [] {
      assert a + b == b;
    } else {
      assert (a + b)[1..] == a[1..] + b;
      FilterAppend(a[1..], b, keep);
    }
  }

  /** Filtering one more element at the end of a prefix. */
  lemma FilterSnoc<T(!new)>(s: seq<T>, i: nat, keep: T -> bool)
    requires i < |s|
    ensures Filter(s[..i + 1], keep) == Filter(s[..i], keep) + (if keep(s[i]) then [s[i]] else [])
  {
    assert s[..i + 1] == s[..i] + [s[i]];
    FilterAppend(s[..i], [s[i]], keep);
    assert [s[i]][1..] == [];
  }

  /** Filtering one more element at the end of a slice. */
  lemma FilterSliceSnoc<T(!new)>(s: seq<T>, a: nat, b: nat, keep: T -> bool)
    requires a <= b < |s|
    ensures Filter(s[a..b + 1], keep) == Filter(s[a..b], keep) + (if keep(s[b]) then [s[b]] else [])
  {
    assert s[a..b + 1] == s[a..b] + [s[b]];
    FilterAppend(s[a..b], [s[b]], keep);
    assert [s[b]][1..] == [];
  }

  /** A filter that rejects nothing is the identity. */
  lemma {:induction false} FilterKeepsAll<T(!new)>(s: seq<T>, keep: T -> bool)
    requires forall i :: 0 <= i < |s| ==> keep(s[i])
    ensures Filter(s, keep) == s
  {
    if s != [] {
      FilterKeepsAll(s[1..], keep);
    }
  }
}
