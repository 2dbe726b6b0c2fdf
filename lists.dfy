/**
 * `array.filter(item => item !== x)` and the facts the model needs about it,
 * with a few facts about concatenation the other modules share.
 */
module Lists {

  /** Concatenation is associative; the step Dafny needs spelled out when an append is regrouped. */
  lemma AppendAssoc<T>(x: seq<T>, y: seq<T>, z: seq<T>)
    ensures x + (y + z) == (x + y) + z
  {
  }

  /** The first part of a three-part concatenation is a prefix of it, and the last part its suffix. */
  lemma FrameParts<T>(head: seq<T>, middle: seq<T>, tail: seq<T>)
    ensures head <= head + middle + tail
    ensures (head + middle + tail)[|head + middle|..] == tail
  {
    assert (head + middle + tail)[..|head|] == head;
  }

  /** The last `n` elements of `a + b` are those of `b` when `b` has at least `n`. */
  lemma SuffixOfAppend<T>(a: seq<T>, b: seq<T>, n: nat)
    requires n <= |b|
    ensures (a + b)[|a + b| - n..] == b[|b| - n..]
  {
    assert (a + b)[|a + b| - n..] == (a + b)[|a| + (|b| - n)..];
  }

  /** The elements of `s` other than `x`, in their order. */
  function Without<T(==,!new)>(s: seq<T>, x: T): (r: seq<T>)
    ensures x !in r
    ensures forall y :: y in r <==> y in s && y != x
    ensures multiset(r) == multiset(s)[x := 0]
    ensures x !in s ==> r == s
  {
    if s == [] then []
    else
      assert s == [s[0]] + s[1..];
      (if s[0] == x then [] else [s[0]]) + Without(s[1..], x)
  }

  /** Filtering a concatenation filters each part. */
  lemma {:induction false} WithoutAppend<T(!new)>(a: seq<T>, b: seq<T>, x: T)
    ensures Without(a + b, x) == Without(a, x) + Without(b, x)
  {
    if a == [] {
      assert a + b == b;
    } else {
      assert (a + b)[0] == a[0] && (a + b)[1..] == a[1..] + b;
      WithoutAppend(a[1..], b, x);
      AppendAssoc(if a[0] == x then [] else [a[0]], Without(a[1..], x), Without(b, x));
    }
  }

  /** No element occurs twice in `s`. */
  predicate Distinct<T(==)>(s: seq<T>)
  {
    forall i, j :: 0 <= i < j < |s| ==> s[i] != s[j]
  }

  /** Filtering keeps a sequence free of repeats. */
  lemma {:induction false} WithoutKeepsDistinct<T(!new)>(s: seq<T>, x: T)
    requires Distinct(s)
    ensures Distinct(Without(s, x))
  {
    if s != [] {
      var tail := s[1..];
      assert Distinct(tail) by {
        forall i, j | 0 <= i < j < |tail| ensures tail[i] != tail[j] {
          assert tail[i] == s[i + 1] && tail[j] == s[j + 1];
        }
      }
      WithoutKeepsDistinct(tail, x);
      assert s[0] !in tail by {
        forall k | 0 <= k < |tail| ensures tail[k] != s[0] { assert tail[k] == s[k + 1]; }
      }
    }
  }
}
