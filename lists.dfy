/** Python list removal as the two engines use it on their unit rosters. */
module Lists {

  /**
   * `lst.remove(x)` guarded by `if x in lst`: drop the first occurrence of `x`;
   * a value that is not present leaves the list as it is.
   */
  function Remove<T(==)>(s: seq<T>, x: T): (r: seq<T>)
    ensures x !in s ==> r == s
    ensures x in s ==> |r| == |s| - 1 && multiset(r) == multiset(s) - multiset{x}
    ensures forall y :: y in r ==> y in s
  {
    if s == [] then []
    else
      assert s == [s[0]] + s[1..];
      if s[0] == x then s[1..]
      else [s[0]] + Remove(s[1..], x)
  }

  /** No element occurs twice. */
  ghost predicate Distinct<T>(s: seq<T>) {
    forall a, b :: 0 <= a < b < |s| ==> s[a] != s[b]
  }

  lemma DistinctTail<T>(s: seq<T>)
    requires |s| > 0 && Distinct(s)
    ensures Distinct(s[1..]) && s[0] !in s[1..]
  {
    forall a, b | 0 <= a < b < |s[1..]| ensures s[1..][a] != s[1..][b] {
      assert s[1..][a] == s[a + 1] && s[1..][b] == s[b + 1];
    }
    forall k | 0 <= k < |s[1..]| ensures s[1..][k] != s[0] {
      assert s[1..][k] == s[k + 1];
    }
  }

  /** Dropping index `i` from a list without repeats is `Remove` of the element found there. */
  lemma {:induction false} RemoveAt<T>(s: seq<T>, i: nat)
    requires i < |s| && Distinct(s)
    ensures Remove(s, s[i]) == s[..i] + s[i + 1..]
  {
    if i == 0 {
      assert s[..i] + s[i + 1..] == s[1..];
    } else {
      DistinctTail(s);
      var t := s[1..];
      assert t[i - 1] == s[i];
      RemoveAt(t, i - 1);
      SliceTail(s, i);
    }
  }

  /** Cutting index `i > 0` out of `s` is keeping the head and cutting `i - 1` out of the tail. */
  lemma SliceTail<T>(s: seq<T>, i: nat)
    requires 0 < i < |s|
    ensures [s[0]] + (s[1..][..i - 1] + s[1..][i..]) == s[..i] + s[i + 1..]
  {
    assert s[1..][..i - 1] == s[1..i];
    assert s[1..][i..] == s[i + 1..];
    assert [s[0]] + s[1..i] == s[..i];
  }

  /**
   * Removing a unit that was already removed changes nothing: in a roster
   * without repeats, removal is idempotent.
   */
  lemma {:induction false} RemoveIdempotent<T>(s: seq<T>, x: T)
    requires Distinct(s)
    ensures x !in Remove(s, x)
    ensures Remove(Remove(s, x), x) == Remove(s, x)
  {
    if s != [] {
      DistinctTail(s);
      if s[0] != x {
        RemoveIdempotent(s[1..], x);
      }
    }
  }

  /** In a list without repeats, what a removal keeps is exactly every other element. */
  lemma {:induction false} RemoveMembers<T>(s: seq<T>, x: T)
    requires Distinct(s)
    ensures forall y :: y in Remove(s, x) <==> y in s && y != x
  {
    if s != [] {
      DistinctTail(s);
      if s[0] != x {
        RemoveMembers(s[1..], x);
      }
    }
  }

  /** Removal keeps a list free of repeats. */
  lemma {:induction false} RemoveDistinct<T>(s: seq<T>, x: T)
    requires Distinct(s)
    ensures Distinct(Remove(s, x))
  {
    if s != [] {
      DistinctTail(s);
      if s[0] != x {
        RemoveDistinct(s[1..], x);
        var r := Remove(s[1..], x);
        assert s[0] !in r;
        forall a, b | 0 <= a < b < |[s[0]] + r| ensures ([s[0]] + r)[a] != ([s[0]] + r)[b] {
          if a > 0 {
            assert ([s[0]] + r)[a] == r[a - 1] && ([s[0]] + r)[b] == r[b - 1];
          } else {
            assert ([s[0]] + r)[b] == r[b - 1];
          }
        }
      }
    }
  }
}
