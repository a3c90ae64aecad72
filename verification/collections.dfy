/** Facts about the members of a list of words. */
module Collections {

  /** The distinct entries of a list (`new Set(list)`). */
  function Elements(s: seq<string>): set<string>
  {
    set x | x in s
  }

  /** No entry occurs twice. */
  predicate NoDuplicates(s: seq<string>)
  {
    forall i, j :: 0 <= i < j < |s| ==> s[i] != s[j]
  }

  /** A set built from a list has at most as many members as the list has entries, exactly as many when the list has no duplicates. */
  lemma {:induction false} ElementsCount(s: seq<string>)
    ensures |Elements(s)| <= |s|
    ensures NoDuplicates(s) ==> |Elements(s)| == |s|
  {
    if |s| != 0 {
      ElementsCount(s[1..]);
      assert s == [s[0]] + s[1..];
      assert Elements(s) == {s[0]} + Elements(s[1..]);
      if NoDuplicates(s) {
        assert NoDuplicates(s[1..]);
        assert s[0] !in Elements(s[1..]);
      }
    }
  }

  /** Reordering a list without duplicates leaves it without duplicates. */
  lemma NoDuplicatesPermutation(s: seq<string>, t: seq<string>)
    requires NoDuplicates(s) && multiset(s) == multiset(t)
    ensures NoDuplicates(t)
  {
    forall i, j | 0 <= i < j < |t|
      ensures t[i] != t[j]
    {
      if t[i] == t[j] {
        CountAtLeastTwo(t, i, j);
        NoDuplicatesCount(s, t[i]);
      }
    }
  }

  lemma {:induction false} CountAtLeastTwo(t: seq<string>, i: int, j: int)
    requires 0 <= i < j < |t| && t[i] == t[j]
    ensures multiset(t)[t[i]] >= 2
  {
    assert t == t[..j] + [t[j]] + t[j + 1..];
    assert t[i] in t[..j];
    assert multiset(t[..j])[t[i]] >= 1;
  }

  lemma {:induction false} NoDuplicatesCount(s: seq<string>, x: string)
    requires NoDuplicates(s)
    ensures multiset(s)[x] <= 1
  {
    if |s| != 0 {
      assert s == [s[0]] + s[1..];
      assert NoDuplicates(s[1..]);
      NoDuplicatesCount(s[1..], x);
      if x == s[0] {
        assert x !in s[1..];
      }
    }
  }
}
