/** The array operations the controllers rely on: JavaScript's `indexOf` and
    `splice(i, 1)`, Mongoose's document-array `pull` and MongoDB's `$pull`, and
    the occurrence count used to state what they do. */
module Seqs {

  /** Number of occurrences of `x` in `s`. */
  function Count<T(==)>(s: seq<T>, x: T): (n: nat)
    ensures n <= |s|
    ensures n == 0 <==> x !in s
  {
    if s == [] then 0 else (if s[0] == x then 1 else 0) + Count(s[1..], x)
  }

  lemma {:induction false} CountAppend<T>(s: seq<T>, t: seq<T>, x: T)
    ensures Count(s + t, x) == Count(s, x) + Count(t, x)
  {
    if s == [] {
      assert s + t == t;
    } else {
      assert (s + t)[1..] == s[1..] + t;
      CountAppend(s[1..], t, x);
    }
  }

  /** No element occurs twice: how a list that is "semantically a set" is kept. */
  predicate NoDup<T(==)>(s: seq<T>)
  {
    forall i, j :: 0 <= i < j < |s| ==> s[i] != s[j]
  }

  /** The head of a duplicate-free list is not repeated in its tail. */
  lemma NoDupHead<T>(s: seq<T>)
    requires NoDup(s) && s != []
    ensures s[0] !in s[1..] && NoDup(s[1..])
  {
    forall j | 0 <= j < |s[1..]|
      ensures s[1..][j] != s[0]
    {
      assert s[1..][j] == s[j + 1];
    }
  }

  lemma {:induction false} NoDupCount<T>(s: seq<T>, x: T)
    requires NoDup(s)
    ensures Count(s, x) <= 1
  {
    if s != [] {
      NoDupHead(s);
      NoDupCount(s[1..], x);
    }
  }

  /** `Array.prototype.indexOf`: the first index holding `x`, or -1. */
  function IndexOf<T(==)>(s: seq<T>, x: T): (i: int)
    ensures -1 <= i < |s|
    ensures i == -1 <==> x !in s
    ensures 0 <= i ==> s[i] == x && x !in s[..i]
  {
    if s == [] then -1
    else if s[0] == x then 0
    else
      var j := IndexOf(s[1..], x);
      if j == -1 then -1
      else
        assert s[..j + 1] == [s[0]] + s[1..][..j];
        j + 1
  }

  /** An index holding `x` with no `x` before it is what `indexOf` finds. */
  lemma IndexOfAt<T>(s: seq<T>, x: T, i: nat)
    requires i < |s| && s[i] == x && x !in s[..i]
    ensures IndexOf(s, x) == i
  {
    assert x in s;
    var j := IndexOf(s, x);
    assert forall k :: 0 <= k < i ==> s[..i][k] == s[k];
    assert forall k :: 0 <= k < j ==> s[..j][k] == s[k];
  }

  /** `splice(i, 1)`: the element at index `i` taken out, the rest kept in order. */
  function Splice<T>(s: seq<T>, i: nat): (r: seq<T>)
    requires i < |s|
    ensures |r| == |s| - 1
    ensures forall k :: 0 <= k < i ==> r[k] == s[k]
    ensures forall k :: i <= k < |r| ==> r[k] == s[k + 1]
  {
    s[..i] + s[i + 1..]
  }

  /** What `splice(i, 1)` does to the occurrence counts. */
  lemma SpliceCount<T>(s: seq<T>, i: nat)
    requires i < |s|
    ensures forall y :: Count(Splice(s, i), y) == Count(s, y) - (if s[i] == y then 1 else 0)
  {
    forall y
      ensures Count(Splice(s, i), y) == Count(s, y) - (if s[i] == y then 1 else 0)
    {
      assert s == s[..i] + [s[i]] + s[i + 1..];
      CountAppend(s[..i] + [s[i]], s[i + 1..], y);
      CountAppend(s[..i], [s[i]], y);
      CountAppend(s[..i], s[i + 1..], y);
    }
  }

  /** What `push(x)` does to the occurrence counts. */
  lemma PushCount<T>(s: seq<T>, x: T)
    ensures forall y :: Count(s + [x], y) == Count(s, y) + (if x == y then 1 else 0)
  {
    forall y
      ensures Count(s + [x], y) == Count(s, y) + (if x == y then 1 else 0)
    {
      CountAppend(s, [x], y);
    }
  }

  /** Mongoose `pull` and MongoDB `$pull`: every element equal to `x` removed,
      the others kept in their order. */
  function Pull<T(==,!new)>(s: seq<T>, x: T): (r: seq<T>)
    ensures x !in r
    ensures forall y :: y != x ==> Count(r, y) == Count(s, y)
    ensures |r| == |s| - Count(s, x)
  {
    if s == [] then []
    else if s[0] == x then Pull(s[1..], x)
    else [s[0]] + Pull(s[1..], x)
  }

  /** Pulling from a list that does not hold `x` changes nothing. */
  lemma {:induction false} PullAbsent<T(!new)>(s: seq<T>, x: T)
    requires x !in s
    ensures Pull(s, x) == s
  {
    if s != [] {
      PullAbsent(s[1..], x);
      assert [s[0]] + s[1..] == s;
    }
  }

  /** Pull works element by element, so it keeps the relative order of the rest. */
  lemma {:induction false} PullAppend<T(!new)>(s: seq<T>, t: seq<T>, x: T)
    ensures Pull(s + t, x) == Pull(s, x) + Pull(t, x)
  {
    if s == [] {
      assert s + t == t;
    } else {
      assert (s + t)[0] == s[0];
      assert (s + t)[1..] == s[1..] + t;
      PullAppend(s[1..], t, x);
    }
  }

  /** Pull keeps only elements of the input. */
  lemma {:induction false} PullSubset<T(!new)>(s: seq<T>, x: T, y: T)
    ensures y in Pull(s, x) <==> y in s && y != x
  {
    if y != x {
      assert Count(Pull(s, x), y) == Count(s, y);
    }
  }

  /** When `x` occurs once, splicing it out at its index is pulling it. */
  lemma SpliceIsPull<T(!new)>(s: seq<T>, x: T)
    requires Count(s, x) == 1
    ensures 0 <= IndexOf(s, x) && Splice(s, IndexOf(s, x)) == Pull(s, x)
  {
    var i := IndexOf(s, x);
    var before, rest, after := s[..i], s[i..], s[i + 1..];
    assert s == before + rest;
    assert rest == [x] + after;
    CountAppend(before, rest, x);
    CountAppend([x], after, x);
    assert Count(after, x) == 0;
    PullAppend(before, rest, x);
    PullAppend([x], after, x);
    PullAbsent(before, x);
    PullAbsent(after, x);
    assert Pull([x], x) == [];
    assert Splice(s, i) == before + after;
  }

  /** Pull keeps a duplicate-free list duplicate-free. */
  lemma {:induction false} PullNoDup<T(!new)>(s: seq<T>, x: T)
    requires NoDup(s)
    ensures NoDup(Pull(s, x))
  {
    if s != [] {
      NoDupHead(s);
      PullNoDup(s[1..], x);
      if s[0] != x {
        var r := Pull(s[1..], x);
        PullSubset(s[1..], x, s[0]);
        NoDupHead(s);
        forall i, j | 0 <= i < j < |[s[0]] + r|
          ensures ([s[0]] + r)[i] != ([s[0]] + r)[j]
        {
          if i == 0 {
            assert ([s[0]] + r)[j] == r[j - 1];
          } else {
            assert ([s[0]] + r)[i] == r[i - 1] && ([s[0]] + r)[j] == r[j - 1];
          }
        }
      }
    }
  }
}
