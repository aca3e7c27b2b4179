/**
 * What the linked list stores, seen as a value: the sequence of strings a
 * forward traversal from the head visits, and how each list operation
 * changes that sequence.
 */
module ListSpec {
  import opened CString

  /** Strictly ascending under strcmp: each element sorts before the next. */
  predicate Ascending(xs: seq<string>) {
    forall i :: 0 <= i < |xs| - 1 ==> Less(xs[i], xs[i + 1])
  }

  /** The contents after inserting `s`: the scan of Insert walks past the
      elements that compare less, stops without change at an equal one, and
      places `s` before the first element that compares greater, or at the end. */
  function InsertSorted(xs: seq<string>, s: string): (r: seq<string>)
  {
    if xs == [] then [s]
    else if Strcmp(xs[0], s) == 0 then xs
    else if Strcmp(xs[0], s) > 0 then [s] + xs
    else [xs[0]] + InsertSorted(xs[1..], s)
  }

  /** The contents after deleting `s`: the first element equal to `s` is
      dropped, the others keep their order. */
  function Remove(xs: seq<string>, s: string): (r: seq<string>)
  {
    if xs == [] then []
    else if Strcmp(s, xs[0]) == 0 then xs[1..]
    else [xs[0]] + Remove(xs[1..], s)
  }

  /** The sequence read backwards. */
  function Reversed<T>(xs: seq<T>): (r: seq<T>)
    ensures |r| == |xs|
    ensures forall k :: 0 <= k < |xs| ==> r[k] == xs[|xs| - 1 - k]
  {
    if xs == [] then [] else [xs[|xs| - 1]] + Reversed(xs[..|xs| - 1])
  }

  /** Reading a sequence backwards twice gives it back. */
  lemma ReversedTwice<T>(xs: seq<T>)
    ensures Reversed(Reversed(xs)) == xs
  {
  }

  /** Reading an ascending sequence of two or more strings backwards gives
      one that is not ascending: its first two elements are out of order. */
  lemma ReversedNotAscending(xs: seq<string>)
    requires Ascending(xs) && |xs| >= 2
    ensures !Ascending(Reversed(xs))
  {
    var n := |xs|;
    var r := Reversed(xs);
    assert r[0] == xs[n - 1] && r[1] == xs[n - 2];
    assert Less(xs[n - 2], xs[n - 1]);
    StrcmpAntisymmetric(xs[n - 2], xs[n - 1]);
    assert !Less(r[0], r[1]);
  }

  /** Ascending order relates every earlier element to every later one. */
  lemma {:induction false} AscendingPairs(xs: seq<string>, i: int, j: int)
    requires Ascending(xs)
    requires 0 <= i < j < |xs|
    ensures Less(xs[i], xs[j])
  {
    if j > i + 1 {
      AscendingPairs(xs, i, j - 1);
      LessTransitive(xs[i], xs[j - 1], xs[j]);
    }
  }

  /** An ascending sequence holds no string twice. */
  lemma AscendingDistinct(xs: seq<string>, i: int, j: int)
    requires Ascending(xs)
    requires 0 <= i < j < |xs|
    ensures xs[i] != xs[j]
  {
    AscendingPairs(xs, i, j);
  }

  /** In an ascending sequence, sorting before the first element is sorting
      before every element. */
  lemma LessThanFirst(xs: seq<string>, s: string)
    requires Ascending(xs) && xs != []
    ensures Less(s, xs[0]) <==> forall t :: t in xs ==> Less(s, t)
  {
    if Less(s, xs[0]) {
      forall t | t in xs ensures Less(s, t) {
        var j :| 0 <= j < |xs| && xs[j] == t;
        if j > 0 {
          AscendingPairs(xs, 0, j);
          LessTransitive(s, xs[0], t);
        }
      }
    }
  }

  /** In an ascending sequence, sorting after the last element is sorting
      after every element. */
  lemma GreaterThanLast(xs: seq<string>, s: string)
    requires Ascending(xs) && xs != []
    ensures Less(xs[|xs| - 1], s) <==> forall t :: t in xs ==> Less(t, s)
  {
    var n := |xs| - 1;
    if Less(xs[n], s) {
      forall t | t in xs ensures Less(t, s) {
        var j :| 0 <= j < |xs| && xs[j] == t;
        if j < n {
          AscendingPairs(xs, j, n);
          LessTransitive(t, xs[n], s);
        }
      }
    }
  }

  /** In an ascending sequence, once an element does not sort before `s`,
      the last element does not either. */
  lemma LastNotBefore(xs: seq<string>, s: string, i: int)
    requires Ascending(xs) && 0 <= i < |xs| && !Less(xs[i], s)
    ensures !Less(xs[|xs| - 1], s)
  {
    var n := |xs| - 1;
    if i < n && Less(xs[n], s) {
      AscendingPairs(xs, i, n);
      LessTransitive(xs[i], xs[n], s);
    }
  }

  /** Where InsertSorted puts `s`: after the first `k` elements, when they all
      sort before `s` and element `k` (if any) sorts after it. */
  lemma {:induction false} InsertSortedAt(xs: seq<string>, s: string, k: int)
    requires 0 <= k <= |xs|
    requires forall j :: 0 <= j < k ==> Less(xs[j], s)
    requires k < |xs| ==> Less(s, xs[k])
    ensures InsertSorted(xs, s) == xs[..k] + [s] + xs[k..]
  {
    if k == 0 {
      if xs != [] {
        StrcmpAntisymmetric(s, xs[0]);
      }
    } else {
      StrcmpAntisymmetric(xs[0], s);
      InsertSortedAt(xs[1..], s, k - 1);
      assert xs[..k] == [xs[0]] + xs[1..][..k - 1];
    }
  }

  /** InsertSorted leaves the sequence alone when it meets `s` after
      elements that all sort before `s`. */
  lemma {:induction false} InsertSortedFound(xs: seq<string>, s: string, k: int)
    requires 0 <= k < |xs| && xs[k] == s
    requires forall j :: 0 <= j < k ==> Less(xs[j], s)
    ensures InsertSorted(xs, s) == xs
  {
    if k > 0 {
      StrcmpAntisymmetric(xs[0], s);
      InsertSortedFound(xs[1..], s, k - 1);
    }
  }

  /** Where the scan of Insert stops at an equal element: nothing changes,
      and `s` neither sorts before the first element nor after the last. */
  lemma InsertSortedMeets(xs: seq<string>, s: string, k: int)
    requires Ascending(xs)
    requires 0 <= k < |xs| && Strcmp(xs[k], s) == 0
    requires forall j :: 0 <= j < k ==> Less(xs[j], s)
    ensures InsertSorted(xs, s) == xs
    ensures !Less(s, xs[0]) && !Less(xs[|xs| - 1], s)
  {
    InsertSortedFound(xs, s, k);
    StrcmpAntisymmetric(xs[0], s);
    LastNotBefore(xs, s, k);
  }

  /** Where the scan of Insert stops past the elements that sort before `s`,
      at one that sorts after it or at the end: `s` is new, goes in at that
      index, and the result is ascending. The index is 0 exactly when `s`
      sorts before the first element, |xs| exactly when after the last. */
  lemma InsertSortedSplit(xs: seq<string>, s: string, k: int)
    requires Ascending(xs) && xs != []
    requires 0 <= k <= |xs|
    requires forall j :: 0 <= j < k ==> Less(xs[j], s)
    requires k < |xs| ==> Strcmp(xs[k], s) > 0
    ensures s !in xs
    ensures InsertSorted(xs, s) == xs[..k] + [s] + xs[k..]
    ensures Ascending(xs[..k] + [s] + xs[k..])
    ensures k == 0 <==> Less(s, xs[0])
    ensures k == |xs| <==> Less(xs[|xs| - 1], s)
  {
    if k < |xs| {
      StrcmpAntisymmetric(xs[k], s);
      LastNotBefore(xs, s, k);
    }
    StrcmpAntisymmetric(xs[0], s);
    InsertSortedAt(xs, s, k);
    InsertSortedProperties(xs, s);
  }

  /** Where Remove drops `s`: at the first index holding it. */
  lemma {:induction false} RemoveAt(xs: seq<string>, s: string, k: int)
    requires 0 <= k < |xs| && xs[k] == s
    requires forall j :: 0 <= j < k ==> xs[j] != s
    ensures Remove(xs, s) == xs[..k] + xs[k + 1..]
  {
    if k > 0 {
      RemoveAt(xs[1..], s, k - 1);
      assert xs[..k] == [xs[0]] + xs[1..][..k - 1];
    }
  }

  /** Where the scan of Delete stops at the first element equal to `s`:
      that element goes, the rest stay ascending, and it is the first or
      the last element exactly when `s` is. */
  lemma RemoveSplit(xs: seq<string>, s: string, k: int)
    requires Ascending(xs)
    requires 0 <= k < |xs| && xs[k] == s
    requires forall j :: 0 <= j < k ==> xs[j] != s
    ensures Remove(xs, s) == xs[..k] + xs[k + 1..]
    ensures Ascending(xs[..k] + xs[k + 1..])
    ensures xs[0] == s <==> k == 0
    ensures xs[|xs| - 1] == s <==> k == |xs| - 1
  {
    RemoveAt(xs, s, k);
    RemoveProperties(xs, s);
    if k < |xs| - 1 {
      AscendingDistinct(xs, k, |xs| - 1);
    }
  }

  /** Remove of an absent string changes nothing. */
  lemma {:induction false} RemoveAbsent(xs: seq<string>, s: string)
    requires s !in xs
    ensures Remove(xs, s) == xs
  {
    if xs != [] {
      assert xs == [xs[0]] + xs[1..];
      RemoveAbsent(xs[1..], s);
    }
  }

  /** Inserting into an ascending sequence gives an ascending sequence holding
      the old elements and `s`, one longer exactly when `s` was absent. */
  lemma {:induction false} InsertSortedProperties(xs: seq<string>, s: string)
    requires Ascending(xs)
    ensures Ascending(InsertSorted(xs, s))
    ensures forall t :: t in InsertSorted(xs, s) <==> t in xs || t == s
    ensures s in xs ==> InsertSorted(xs, s) == xs
    ensures s !in xs ==> |InsertSorted(xs, s)| == |xs| + 1
  {
    var r := InsertSorted(xs, s);
    if xs == [] {
    } else if Strcmp(xs[0], s) == 0 {
    } else if Strcmp(xs[0], s) > 0 {
      StrcmpAntisymmetric(xs[0], s);
      LessThanFirst(xs, s);
    } else {
      var rest := InsertSorted(xs[1..], s);
      InsertSortedProperties(xs[1..], s);
      assert xs == [xs[0]] + xs[1..];
      assert r == [xs[0]] + rest;
      // the first element of rest is either s or xs[1], both after xs[0]
      assert Less(xs[0], rest[0]) by {
        if |xs| > 1 && Strcmp(xs[1], s) <= 0 {
          assert rest[0] == xs[1];
        } else {
          assert rest[0] == s;
        }
      }
    }
  }

  /** Inserting a string twice is inserting it once. */
  lemma InsertSortedIdempotent(xs: seq<string>, s: string)
    requires Ascending(xs)
    ensures InsertSorted(InsertSorted(xs, s), s) == InsertSorted(xs, s)
  {
    InsertSortedProperties(xs, s);
    InsertSortedProperties(InsertSorted(xs, s), s);
  }

  /** Deleting from an ascending sequence gives an ascending sequence holding
      the old elements except `s`, one shorter exactly when `s` was present. */
  lemma {:induction false} RemoveProperties(xs: seq<string>, s: string)
    requires Ascending(xs)
    ensures Ascending(Remove(xs, s))
    ensures forall t :: t in Remove(xs, s) <==> t in xs && t != s
    ensures s in xs ==> |Remove(xs, s)| == |xs| - 1
    ensures s !in xs ==> Remove(xs, s) == xs
  {
    if xs == [] {
    } else if Strcmp(s, xs[0]) == 0 {
      forall i | 0 < i < |xs| ensures xs[i] != s {
        AscendingDistinct(xs, 0, i);
      }
    } else {
      var rest := Remove(xs[1..], s);
      RemoveProperties(xs[1..], s);
      assert xs == [xs[0]] + xs[1..];
      assert Remove(xs, s) == [xs[0]] + rest;
      if rest != [] {
        assert rest[0] in xs[1..];
        var j :| 1 <= j < |xs| && xs[j] == rest[0];
        AscendingPairs(xs, 0, j);
      }
    }
  }

  /** Insert then Delete of an absent string restores the sequence. */
  lemma {:induction false} RemoveInsertSorted(xs: seq<string>, s: string)
    requires s !in xs
    ensures Remove(InsertSorted(xs, s), s) == xs
  {
    if xs == [] {
    } else if Strcmp(xs[0], s) > 0 {
    } else {
      assert xs == [xs[0]] + xs[1..];
      StrcmpAntisymmetric(xs[0], s);
      RemoveInsertSorted(xs[1..], s);
    }
  }

  /** Delete then Insert of a present string restores an ascending sequence. */
  lemma {:induction false} InsertSortedRemove(xs: seq<string>, s: string)
    requires Ascending(xs) && s in xs
    ensures InsertSorted(Remove(xs, s), s) == xs
  {
    if Strcmp(s, xs[0]) == 0 {
      if |xs| > 1 {
        assert Less(s, xs[1]);
        StrcmpAntisymmetric(s, xs[1]);
      }
    } else {
      assert xs == [xs[0]] + xs[1..];
      assert s in xs[1..];
      var j :| 1 <= j < |xs| && xs[j] == s;
      AscendingPairs(xs, 0, j);
      StrcmpAntisymmetric(xs[0], s);
      InsertSortedRemove(xs[1..], s);
    }
  }
}
