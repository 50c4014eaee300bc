/** Facts about .NET `List<T>` operations used by the quadtree and the timer registry. */
module Lists {

  /** No element occurs twice. */
  ghost predicate NoDup<T>(s: seq<T>)
  {
    forall i, j :: 0 <= i < j < |s| ==> s[i] != s[j]
  }

  /** `List.Remove(x)`: drop the first occurrence of x, if any. */
  function RemoveFirst<T(==)>(s: seq<T>, x: T): (r: seq<T>)
    ensures x in s ==> |r| == |s| - 1 && multiset(r) == multiset(s) - multiset{x}
    ensures x !in s ==> r == s
  {
    if s == [] then []
    else if s[0] == x then
      assert s == [s[0]] + s[1..];
      s[1..]
    else
      assert s == [s[0]] + s[1..];
      [s[0]] + RemoveFirst(s[1..], x)
  }

  /** Removing `s[i]` by value removes exactly position i when it is the first occurrence. */
  lemma {:induction false} RemoveFirstOccurrence<T>(s: seq<T>, i: nat)
    requires i < |s| && s[i] !in s[..i]
    ensures RemoveFirst(s, s[i]) == s[..i] + s[i + 1..]
  {
    if i > 0 {
      var t := s[1..];
      assert s[0] in s[..i];
      assert t[i - 1] == s[i] && t[..i - 1] == s[1..i];
      assert s[i] !in t[..i - 1] by {
        assert forall x | x in s[1..i] :: x in s[..i];
      }
      RemoveFirstOccurrence(t, i - 1);
      assert t[i..] == s[i + 1..];
      assert [s[0]] + s[1..i] == s[..i];
    }
  }

  /** In a list without duplicates, removing `s[i]` by value removes exactly position i. */
  lemma RemoveFirstAt<T>(s: seq<T>, i: nat)
    requires i < |s| && NoDup(s)
    ensures RemoveFirst(s, s[i]) == s[..i] + s[i + 1..]
  {
    assert forall j | 0 <= j < i :: s[..i][j] == s[j] != s[i];
    RemoveFirstOccurrence(s, i);
  }

  /** Removing an element keeps a duplicate-free list duplicate-free. */
  lemma NoDupRemove<T>(s: seq<T>, i: nat)
    requires i < |s| && NoDup(s)
    ensures NoDup(s[..i] + s[i + 1..]) && s[i] !in s[..i] + s[i + 1..]
  {
    var r := s[..i] + s[i + 1..];
    forall a, b | 0 <= a < b < |r| ensures r[a] != r[b] {
      var a' := if a < i then a else a + 1;
      var b' := if b < i then b else b + 1;
      assert r[a] == s[a'] && r[b] == s[b'];
    }
    forall j | 0 <= j < |r| ensures r[j] != s[i] {
      assert r[j] == s[if j < i then j else j + 1];
    }
  }

  /** Appending a new element keeps a duplicate-free list duplicate-free. */
  lemma NoDupAppend<T>(s: seq<T>, x: T)
    requires NoDup(s) && x !in s
    ensures NoDup(s + [x])
  {
  }

  /** Multiset union cancels. */
  lemma Cancel<T>(a: multiset<T>, b: multiset<T>, c: multiset<T>)
    requires a + c == b + c
    ensures a == b
  {
    forall x ensures a[x] == b[x] {
      assert (a + c)[x] == (b + c)[x];
    }
  }
}
