/** Small facts about sequences shared by the other modules. */
module Basics {

  datatype Option<+T> = None | Some(value: T)

  newtype byte = x: int | 0 <= x < 256

  /** The value int64 arithmetic leaves after wrapping x. */
  function WrapInt64(x: int): int {
    (x + 0x8000_0000_0000_0000) % 0x1_0000_0000_0000_0000 - 0x8000_0000_0000_0000
  }

  const MAX_INT64: int := 0x7FFF_FFFF_FFFF_FFFF

  function Min(a: int, b: int): int { if a < b then a else b }

  predicate NoDup<T(==)>(s: seq<T>) {
    forall i, j :: 0 <= i < j < |s| ==> s[i] != s[j]
  }

  /** The position of the first x in s, or |s| when there is none. */
  function IndexOf<T(==)>(s: seq<T>, x: T): (i: nat)
    ensures i <= |s|
    ensures i < |s| ==> s[i] == x
    ensures forall j :: 0 <= j < i ==> s[j] != x
  {
    if s == [] then 0 else if s[0] == x then 0 else 1 + IndexOf(s[1..], x)
  }

  /** s without its first x. */
  function Remove<T(==)>(s: seq<T>, x: T): seq<T> {
    var i := IndexOf(s, x);
    if i < |s| then s[..i] + s[i + 1..] else s
  }

  lemma RemoveMembers<T>(s: seq<T>, x: T)
    requires NoDup(s)
    ensures forall y :: y in Remove(s, x) <==> y in s && y != x
    ensures NoDup(Remove(s, x))
  {
    var i, r := IndexOf(s, x), Remove(s, x);
    if i < |s| {
      assert r == s[..i] + s[i + 1..];
      assert s == s[..i] + [x] + s[i + 1..];
    }
  }

  /** The last n elements of s, or all of it when it is shorter. */
  function LastN<T>(s: seq<T>, n: nat): seq<T> {
    if |s| <= n then s else s[|s| - n..]
  }

  /** a can be obtained from b by deleting elements; greedy from the front, which is exact. */
  ghost predicate Subsequence<T>(a: seq<T>, b: seq<T>) {
    a == [] ||
    (b != [] && if a[0] == b[0] then Subsequence(a[1..], b[1..]) else Subsequence(a, b[1..]))
  }

  lemma {:induction false} SubsequenceMember<T>(a: seq<T>, b: seq<T>, x: T)
    requires Subsequence(a, b) && x in a
    ensures x in b
  {
    if a[0] == b[0] {
      if x != a[0] { SubsequenceMember(a[1..], b[1..], x); }
    } else {
      SubsequenceMember(a, b[1..], x);
    }
  }

  lemma {:induction false} SubsequenceShortenLeft<T>(a: seq<T>, b: seq<T>)
    requires Subsequence(a, b) && a != []
    ensures Subsequence(a[..|a| - 1], b)
  {
    if |a| > 1 {
      if a[0] == b[0] {
        SubsequenceShortenLeft(a[1..], b[1..]);
        assert a[..|a| - 1][1..] == a[1..][..|a[1..]| - 1];
      } else {
        SubsequenceShortenLeft(a, b[1..]);
      }
    }
  }

  lemma {:induction false} SubsequenceShortenBoth<T>(a: seq<T>, b: seq<T>)
    requires Subsequence(a, b) && a != []
    ensures b != [] && Subsequence(a[..|a| - 1], b[..|b| - 1])
  {
    if |a| > 1 {
      if a[0] == b[0] {
        SubsequenceShortenBoth(a[1..], b[1..]);
        assert a[..|a| - 1][1..] == a[1..][..|a[1..]| - 1];
        assert b[..|b| - 1][1..] == b[1..][..|b[1..]| - 1];
      } else {
        SubsequenceShortenBoth(a, b[1..]);
        assert b[..|b| - 1][1..] == b[1..][..|b[1..]| - 1];
      }
    }
  }
}
