/**
 * The JavaScript array operations the layout code relies on, on sequences:
 * `filter` with `includes`, `indexOf` and a one-element `splice`.
 * Element equality is reference equality (`===`) for the objects they hold.
 */
module JsArray {

  /** No element occurs twice. */
  predicate Distinct<T(==)>(s: seq<T>) {
    forall i, j :: 0 <= i < j < |s| ==> s[i] != s[j]
  }

  /** `original.filter(value => !remove.includes(value))` (layout.js removeFromArray). */
  function RemoveFromArray<T(==)>(original: seq<T>, remove: seq<T>): (r: seq<T>)
    ensures forall x :: x in r ==> x in original && x !in remove
    ensures forall x :: x in original && x !in remove ==> x in r
    ensures |r| <= |original|
  {
    if original == [] then []
    else if original[0] in remove then RemoveFromArray(original[1..], remove)
    else [original[0]] + RemoveFromArray(original[1..], remove)
  }

  /** `s.indexOf(x)`: the first position of `x`, or -1 when it does not occur. */
  function IndexOf<T(==)>(s: seq<T>, x: T): (i: int)
    ensures -1 <= i < |s|
    ensures i == -1 <==> x !in s
    ensures 0 <= i ==> s[i] == x && x !in s[..i]
  {
    if s == [] then -1
    else if s[0] == x then 0
    else
      var k := IndexOf(s[1..], x);
      assert k >= 0 ==> s[..k + 1] == [s[0]] + s[1..][..k];
      if k == -1 then -1 else k + 1
  }

  /**
   * The position `splice(start, 1)` acts on: a negative start counts back from
   * the end (clamped at 0), a start past the end is clamped to the length.
   */
  function SpliceStart(len: nat, start: int): (k: nat)
    ensures k <= len
    ensures 0 <= start <= len ==> k == start
    ensures start > len ==> k == len
    ensures start < 0 && 0 <= len + start ==> k == len + start
    ensures len + start < 0 ==> k == 0
  {
    if start < 0 then (if len + start < 0 then 0 else len + start)
    else if start < len then start else len
  }

  /** `s.splice(start, 1)` applied in place: the sequence that remains. */
  function SpliceOne<T>(s: seq<T>, start: int): (r: seq<T>)
    ensures SpliceStart(|s|, start) < |s| ==> |r| == |s| - 1
    ensures SpliceStart(|s|, start) == |s| ==> r == s
    ensures forall j :: 0 <= j < |r| ==> r[j] == if j < SpliceStart(|s|, start) then s[j] else s[j + 1]
  {
    var k := SpliceStart(|s|, start);
    if k < |s| then s[..k] + s[k + 1..] else s
  }

  /** Removing elements distributes over concatenation: the survivors keep their order. */
  lemma {:induction false} RemoveFromArrayConcat<T>(a: seq<T>, b: seq<T>, remove: seq<T>)
    ensures RemoveFromArray(a + b, remove) == RemoveFromArray(a, remove) + RemoveFromArray(b, remove)
  {
    if a == [] {
      assert a + b == b;
    } else {
      assert (a + b)[0] == a[0];
      assert (a + b)[1..] == a[1..] + b;
      RemoveFromArrayConcat(a[1..], b, remove);
    }
  }

  /** Nothing to remove leaves the sequence as it is. */
  lemma {:induction false} RemoveFromArrayNothing<T>(s: seq<T>, remove: seq<T>)
    requires forall x :: x in s ==> x !in remove
    ensures RemoveFromArray(s, remove) == s
  {
    if s != [] {
      assert s[0] in s;
      RemoveFromArrayNothing(s[1..], remove);
    }
  }

  /** Removing `a` and then `b` is removing `a + b` at once. */
  lemma {:induction false} RemoveFromArrayTwice<T>(s: seq<T>, a: seq<T>, b: seq<T>)
    ensures RemoveFromArray(RemoveFromArray(s, a), b) == RemoveFromArray(s, a + b)
  {
    if s != [] {
      RemoveFromArrayTwice(s[1..], a, b);
      if s[0] !in a {
        var t := RemoveFromArray(s[1..], a);
        assert ([s[0]] + t)[0] == s[0];
        assert ([s[0]] + t)[1..] == t;
      }
    }
  }

  /** A filter of a sequence without repetitions has none either. */
  lemma {:induction false} RemoveFromArrayDistinct<T>(s: seq<T>, remove: seq<T>)
    requires Distinct(s)
    ensures Distinct(RemoveFromArray(s, remove))
  {
    if s != [] {
      assert Distinct(s[1..]) by {
        forall i, j | 0 <= i < j < |s[1..]| ensures s[1..][i] != s[1..][j] {
          assert s[1..][i] == s[i + 1] && s[1..][j] == s[j + 1];
        }
      }
      RemoveFromArrayDistinct(s[1..], remove);
      if s[0] !in remove {
        var t := RemoveFromArray(s[1..], remove);
        assert s[0] !in t;
        var u := [s[0]] + t;
        forall i, j | 0 <= i < j < |u| ensures u[i] != u[j] {
          if i == 0 {
            assert u[j] == t[j - 1];
          } else {
            assert u[i] == t[i - 1] && u[j] == t[j - 1];
          }
        }
      }
    }
  }

  /** Splicing one element out of a sequence without repetitions leaves none. */
  lemma SpliceOneDistinct<T>(s: seq<T>, start: int)
    requires Distinct(s)
    ensures Distinct(SpliceOne(s, start))
  {
  }

  /** Splicing out the element that was there never adds one. */
  lemma SpliceOneSubset<T>(s: seq<T>, start: int)
    ensures forall x :: x in SpliceOne(s, start) ==> x in s
  {
  }

  /** `s.splice(i, 1)` with `i` in range takes out exactly the element at `i`. */
  lemma SpliceInRange<T>(s: seq<T>, i: int)
    requires 0 <= i < |s|
    ensures SpliceOne(s, i) == s[..i] + s[i + 1..]
  {
    assert SpliceStart(|s|, i) == i;
  }

  /** Filtering out an element that occurs once, between `before` and `after`, joins the two. */
  lemma RemoveFromArrayOnce<T>(before: seq<T>, x: T, after: seq<T>)
    requires x !in before && x !in after
    ensures RemoveFromArray(before + ([x] + after), [x]) == before + after
  {
    RemoveFromArrayConcat(before, [x] + after, [x]);
    RemoveFromArrayConcat([x], after, [x]);
    RemoveFromArrayNothing(before, [x]);
    RemoveFromArrayNothing(after, [x]);
    assert RemoveFromArray([x], [x]) == [];
  }

  /**
   * `s.splice(s.indexOf(x), 1)` on a repetition-free sequence holding `x` removes
   * exactly `x` and keeps every other element in order.
   */
  lemma SpliceIndexOf<T>(s: seq<T>, x: T)
    requires Distinct(s) && x in s
    ensures SpliceOne(s, IndexOf(s, x)) == RemoveFromArray(s, [x])
    ensures |SpliceOne(s, IndexOf(s, x))| == |s| - 1
  {
    var i := IndexOf(s, x);
    var before, after := s[..i], s[i + 1..];
    assert s == before + ([x] + after);
    forall j | 0 <= j < |after| ensures after[j] != x {
      assert after[j] == s[i + 1 + j];
    }
    SpliceInRange(s, i);
    RemoveFromArrayOnce(before, x, after);
  }

  /**
   * `s.splice(s.indexOf(x), 1)` when `x` is absent: `indexOf` gives -1, and
   * `splice(-1, 1)` removes the LAST element.
   */
  lemma SpliceMissingDropsLast<T>(s: seq<T>, x: T)
    requires x !in s && s != []
    ensures SpliceOne(s, IndexOf(s, x)) == s[..|s| - 1]
  {
  }
}
