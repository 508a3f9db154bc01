/** The `java.util.List` operations the image grid relies on, over immutable
    sequences: `contains`, `indexOf`, `add` (append) and `remove(Object)`,
    which removes only the FIRST element equal to its argument. */
module Lists {

  /** No element occurs twice. */
  predicate NoDup<T(==)>(s: seq<T>) {
    forall i, j :: 0 <= i < j < |s| ==> s[i] != s[j]
  }

  /** `indexOf`: the position of the first occurrence of `x`. */
  function IndexOf<T(==)>(s: seq<T>, x: T): (i: nat)
    requires x in s
    ensures i < |s| && s[i] == x
    ensures x !in s[..i]
  {
    if s[0] == x then 0
    else
      assert x in s[1..] by { var k :| 0 <= k < |s| && s[k] == x; assert s[1..][k - 1] == x; }
      var j := IndexOf(s[1..], x);
      assert s[1..][..j] == s[1..j + 1];
      assert s[..j + 1] == [s[0]] + s[1..j + 1];
      j + 1
  }

  /** `remove(Object)`: drops the first occurrence of `x`, if there is one. */
  function RemoveFirst<T(==)>(s: seq<T>, x: T): (r: seq<T>)
    ensures x !in s ==> r == s
    ensures x in s ==> r == s[..IndexOf(s, x)] + s[IndexOf(s, x) + 1..]
    ensures multiset(r) == multiset(s) - multiset{x}
  {
    if |s| == 0 then s
    else if s[0] == x then
      assert s == [x] + s[1..];
      s[1..]
    else
      var rest := RemoveFirst(s[1..], x);
      RemoveFirstCons(s, x, rest);
      [s[0]] + rest
  }

  /** The step of RemoveFirst past a head that differs from `x`. */
  lemma RemoveFirstCons<T>(s: seq<T>, x: T, rest: seq<T>)
    requires |s| > 0 && s[0] != x
    requires x !in s[1..] ==> rest == s[1..]
    requires x in s[1..] ==> rest == s[1..][..IndexOf(s[1..], x)] + s[1..][IndexOf(s[1..], x) + 1..]
    requires multiset(rest) == multiset(s[1..]) - multiset{x}
    ensures x !in s ==> [s[0]] + rest == s
    ensures x in s ==> [s[0]] + rest == s[..IndexOf(s, x)] + s[IndexOf(s, x) + 1..]
    ensures multiset([s[0]] + rest) == multiset(s) - multiset{x}
  {
    assert s == [s[0]] + s[1..];
    if x in s {
      IndexOfCons(s, x);
      SpliceCons(s, IndexOf(s[1..], x), rest);
    }
    MultisetCons(s[0], s[1..], x, rest);
  }

  lemma IndexOfCons<T>(s: seq<T>, x: T)
    requires |s| > 0 && s[0] != x && x in s
    ensures x in s[1..] && IndexOf(s, x) == IndexOf(s[1..], x) + 1
  {
    assert s == [s[0]] + s[1..];
  }

  lemma SpliceCons<T>(s: seq<T>, j: nat, rest: seq<T>)
    requires j + 1 < |s|
    requires rest == s[1..][..j] + s[1..][j + 1..]
    ensures [s[0]] + rest == s[..j + 1] + s[j + 2..]
  {
    assert s[..j + 1] == [s[0]] + s[1..][..j];
    assert s[j + 2..] == s[1..][j + 1..];
  }

  lemma MultisetCons<T>(h: T, t: seq<T>, x: T, rest: seq<T>)
    requires h != x
    requires multiset(rest) == multiset(t) - multiset{x}
    ensures multiset([h] + rest) == multiset([h] + t) - multiset{x}
  {
    assert multiset([h] + rest) == multiset{h} + multiset(rest);
    assert multiset([h] + t) == multiset{h} + multiset(t);
  }

  /** Removing an element just appended, when it was absent before, gives the sequence back. */
  lemma RemoveFirstOfAppended<T>(s: seq<T>, x: T)
    requires x !in s
    ensures RemoveFirst(s + [x], x) == s
  {
    var t := s + [x];
    assert t[|s|] == x;
    var i := IndexOf(t, x);
    assert i == |s|;
    assert t[..i] == s;
  }

  /** Removing an element keeps a sequence free of duplicates, and removes it entirely. */
  lemma RemoveFirstKeepsNoDup<T>(s: seq<T>, x: T)
    requires NoDup(s)
    ensures NoDup(RemoveFirst(s, x))
    ensures x !in RemoveFirst(s, x)
  {
    if x in s {
      SpliceKeepsNoDup(s, IndexOf(s, x));
    }
  }

  /** Cutting out position `i` keeps a sequence free of duplicates, and removes `s[i]`. */
  lemma SpliceKeepsNoDup<T>(s: seq<T>, i: nat)
    requires NoDup(s) && i < |s|
    ensures NoDup(s[..i] + s[i + 1..])
    ensures s[i] !in s[..i] + s[i + 1..]
  {
    var r := s[..i] + s[i + 1..];
    forall k | 0 <= k < |r|
      ensures r[k] == s[if k < i then k else k + 1]
    {
    }
  }

  /** Appending an absent element keeps a sequence free of duplicates. */
  lemma AppendKeepsNoDup<T>(s: seq<T>, x: T)
    requires NoDup(s) && x !in s
    ensures NoDup(s + [x])
  {
  }
}
