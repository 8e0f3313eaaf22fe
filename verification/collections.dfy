/** Sequence and set helpers shared by the allocator and collector models. */
module Collections {

  /** The position of the first occurrence of `x` in `s`. */
  function FirstIndex<T(==)>(s: seq<T>, x: T): (i: nat)
    requires x in s
    ensures i < |s| && s[i] == x && x !in s[..i]
  {
    if s[0] == x then 0 else 1 + FirstIndex(s[1..], x)
  }

  /** `s` without its entry at `j`. */
  function RemoveAt<T>(s: seq<T>, j: nat): (r: seq<T>)
    requires j < |s|
    ensures |r| == |s| - 1
    ensures forall k {:trigger r[k]} :: 0 <= k < j ==> r[k] == s[k]
    ensures forall k :: j <= k < |r| ==> r[k] == s[k + 1]
  {
    s[..j] + s[j + 1..]
  }

  /** `s` without the first occurrence of `x`, or `s` itself when `x` does
      not occur (see `RemoveFirstSplits`). */
  function RemoveFirst<T(==)>(s: seq<T>, x: T): (r: seq<T>)
    ensures forall y :: y in r ==> y in s
  {
    if x in s then RemoveAt(s, FirstIndex(s, x)) else s
  }

  /** Inserting `x` back at its first position gives `s` again. */
  lemma RemoveFirstSplits<T>(s: seq<T>, x: T)
    ensures var r := RemoveFirst(s, x);
            && (x !in s ==> r == s)
            && (x in s ==> var i := FirstIndex(s, x); i <= |r| && s == r[..i] + [x] + r[i..])
  {
    if x in s {
      var i := FirstIndex(s, x);
      var r := RemoveAt(s, i);
      assert r == s[..i] + s[i + 1..];
      assert r[..i] == s[..i] && r[i..] == s[i + 1..];
      assert s == s[..i] + [x] + s[i + 1..];
    }
  }

  /** A subset is no larger than its superset. */
  lemma {:induction false} SubsetSize<T>(a: set<T>, b: set<T>)
    requires a <= b
    ensures |a| <= |b|
    decreases |b|
  {
    if b != {} {
      var x :| x in b;
      SubsetSize(a - {x}, b - {x});
    }
  }
}
