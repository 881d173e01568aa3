/** Header fields: a map from field name to values, read and written under canonical names. */
module HttpHeader {
  import opened Basics
  import opened Text

  type Header = map<string, seq<string>>

  predicate IsTokenChar(c: char) {
    || 'a' <= c <= 'z' || 'A' <= c <= 'Z' || '0' <= c <= '9'
    || c in "!#$%&'*+-.^_`|~"
  }

  predicate IsToken(s: string) {
    forall i :: 0 <= i < |s| ==> IsTokenChar(s[i])
  }

  /** The first letter and every letter after a hyphen upper case, the others lower case. */
  function Canonical(s: string): (r: string)
    ensures |r| == |s|
  {
    if IsToken(s) then Cased(s) else s
  }

  function Cased(s: string): (r: string)
    ensures |r| == |s|
    ensures forall i :: 0 <= i < |s| ==> r[i] == CasedChar(s, i)
  {
    seq(|s|, i requires 0 <= i < |s| => CasedChar(s, i))
  }

  function CasedChar(s: string, i: nat): char
    requires i < |s|
  {
    if i == 0 || s[i - 1] == '-' then UpperChar(s[i]) else LowerChar(s[i])
  }

  /** All values of the field, one for each of its lines. */
  function Lines(h: Header, name: string): seq<string> {
    var k := Canonical(name);
    if k in h then h[k] else []
  }

  /** The first value of the field, or "". */
  function Get(h: Header, name: string): string {
    var k := Canonical(name);
    if k in h && h[k] != [] then h[k][0] else ""
  }

  lemma TokenOfLower(a: string, b: string)
    requires EqualFold(a, b)
    ensures IsToken(a) ==> IsToken(b)
  {
    forall i | 0 <= i < |b| && IsToken(a) ensures IsTokenChar(b[i]) {
      assert ToLower(a)[i] == ToLower(b)[i] && IsTokenChar(a[i]);
      assert LowerChar(a[i]) == LowerChar(b[i]);
    }
  }

  /** Names equal up to letter case have equal canonical names. */
  lemma CanonicalOfFold(a: string, b: string)
    requires IsToken(a) && EqualFold(a, b)
    ensures Canonical(a) == Canonical(b)
  {
    TokenOfLower(a, b);
    assert |ToLower(a)| == |ToLower(b)|;
    forall i | 0 <= i < |a| ensures Canonical(a)[i] == Canonical(b)[i] {
      assert ToLower(a)[i] == ToLower(b)[i];
      SameCase(a[i], b[i]);
      if i > 0 {
        assert ToLower(a)[i - 1] == ToLower(b)[i - 1];
        SameCase(a[i - 1], b[i - 1]);
      }
    }
  }

  lemma SameCase(x: char, y: char)
    requires LowerChar(x) == LowerChar(y)
    ensures UpperChar(x) == UpperChar(y) && (x == '-' <==> y == '-')
  {
  }

  /** On tokens, equal canonical names are names equal up to letter case. */
  lemma CanonicalIffFold(a: string, b: string)
    requires IsToken(a)
    ensures Canonical(a) == Canonical(b) <==> EqualFold(a, b)
  {
    if EqualFold(a, b) {
      CanonicalOfFold(a, b);
    }
    if Canonical(a) == Canonical(b) {
      CanonicalFolds(a);
      CanonicalFolds(b);
    }
  }

  lemma CanonicalFolds(a: string)
    ensures EqualFold(Canonical(a), a)
  {
    hide LowerChar, UpperChar, IsToken;
    forall i | 0 <= i < |a| ensures LowerChar(Canonical(a)[i]) == LowerChar(a[i]) {
      LowerOfCase(a[i]);
    }
    assert ToLower(Canonical(a)) == ToLower(a);
  }

  lemma LowerOfCase(c: char)
    ensures LowerChar(UpperChar(c)) == LowerChar(c) && LowerChar(LowerChar(c)) == LowerChar(c)
  {
  }

  lemma CanonicalIdempotent(a: string)
    ensures Canonical(Canonical(a)) == Canonical(a)
  {
    if IsToken(a) {
      CanonicalFolds(a);
      CanonicalIffFold(a, Canonical(a));
    }
  }

  /** A name with a separator in it is left as it is. */
  lemma SeparatorsStay(s: string, i: nat)
    requires i < |s| && s[i] in " \t()<>@,;:\\\"/[]?={}"
    ensures Canonical(s) == s
  {
    assert !IsTokenChar(s[i]);
  }

  lemma CanonicalAt(s: string, i: nat)
    requires IsToken(s) && i < |s|
    ensures Canonical(s)[i] == if i == 0 || s[i - 1] == '-' then UpperChar(s[i]) else LowerChar(s[i])
  {
    hide IsToken, UpperChar, LowerChar;
    assert Canonical(s) == Cased(s);
  }

  lemma TokenParts(a: string, b: string)
    requires IsToken(a) && IsToken(b)
    ensures IsToken(a + b)
  {
    hide IsTokenChar;
    var s := a + b;
    forall i | 0 <= i < |s| ensures IsTokenChar(s[i]) {
      if i < |a| { assert s[i] == a[i]; } else { assert s[i] == b[i - |a|]; }
    }
  }

  /** The canonical form goes part by part between hyphens. */
  lemma CanonicalParts(a: string, b: string)
    requires IsToken(a) && IsToken(b) && a != "" && a[|a| - 1] == '-'
    ensures IsToken(a + b) && Canonical(a + b) == Canonical(a) + Canonical(b)
  {
    hide IsToken, Canonical, UpperChar, LowerChar;
    TokenParts(a, b);
    var s := a + b;
    forall i | 0 <= i < |s| ensures Canonical(s)[i] == (Canonical(a) + Canonical(b))[i] {
      CanonicalAt(s, i);
      if i < |a| {
        CanonicalAt(a, i);
      } else {
        CanonicalAt(b, i - |a|);
      }
    }
  }

  // ---------- a header filled key by key ----------

  /** The header after adding, for each name of ks in turn, all of src's values under it. */
  function AddedInOrder(src: Header, ks: seq<string>): Header
    requires forall k :: k in ks ==> k in src
  {
    if ks == [] then map[]
    else
      var before, k := AddedInOrder(src, ks[..|ks| - 1]), ks[|ks| - 1];
      AddValues(before, Canonical(k), src[k])
  }

  function AddValues(h: Header, c: string, vs: seq<string>): Header {
    if vs == [] then h else h[c := (if c in h then h[c] else []) + vs]
  }

  /** No two names of src are the same up to canonical form. */
  ghost predicate CanonicallyDistinct(src: Header) {
    forall j, k :: j in src && k in src && Canonical(j) == Canonical(k) ==> j == k
  }

  /** dst holds under canonical names what src holds for the names ks. */
  ghost predicate Collects(dst: Header, src: Header, ks: set<string>) {
    && (forall k :: k in ks && k in src && src[k] != [] ==> Canonical(k) in dst && dst[Canonical(k)] == src[k])
    && (forall c :: c in dst ==> exists k :: k in ks && k in src && src[k] != [] && Canonical(k) == c)
  }

  lemma {:induction false} AddedCollects(src: Header, ks: seq<string>)
    requires CanonicallyDistinct(src) && NoDup(ks) && forall k :: k in ks ==> k in src
    ensures Collects(AddedInOrder(src, ks), src, set k | k in ks)
  {
    if ks != [] {
      var before, k := ks[..|ks| - 1], ks[|ks| - 1];
      AddedCollects(src, before);
      assert ks == before + [k];
      assert k !in before;
      assert (set j | j in ks) == (set j | j in before) + {k};
      CollectsOneMore(AddedInOrder(src, before), src, (set j | j in before), k);
    }
  }

  lemma CollectsOneMore(h: Header, src: Header, ks: set<string>, k: string)
    requires CanonicallyDistinct(src) && Collects(h, src, ks) && k in src && k !in ks
    ensures Collects(AddValues(h, Canonical(k), src[k]), src, ks + {k})
  {
    hide Canonical;
    assert [] + src[k] == src[k];
    assert Canonical(k) !in h;
  }

  // ---------- when the order of the walk matters ----------

  /** ks is an order a walk of the map src can visit its names in. */
  ghost predicate IsWalk(src: Header, ks: seq<string>) {
    NoDup(ks) && forall k :: k in ks <==> k in src
  }

  /** The values of the names of ks with canonical form c, end to end. */
  function ValuesAt(src: Header, ks: seq<string>, c: string): seq<string>
    requires forall k :: k in ks ==> k in src
  {
    if ks == [] then []
    else
      var before, k := ValuesAt(src, ks[..|ks| - 1], c), ks[|ks| - 1];
      if Canonical(k) == c then before + src[k] else before
  }

  /** They are what the filled header holds under c. */
  lemma {:induction false} AddedAt(src: Header, ks: seq<string>, c: string)
    requires forall k :: k in ks ==> k in src
    ensures c in AddedInOrder(src, ks) <==> ValuesAt(src, ks, c) != []
    ensures c in AddedInOrder(src, ks) ==> AddedInOrder(src, ks)[c] == ValuesAt(src, ks, c)
  {
    hide Canonical;
    if ks != [] { AddedAt(src, ks[..|ks| - 1], c); }
  }

  lemma {:induction false} ValuesConcat(src: Header, a: seq<string>, b: seq<string>, c: string)
    requires (forall k :: k in a ==> k in src) && (forall k :: k in b ==> k in src)
    ensures ValuesAt(src, a + b, c) == ValuesAt(src, a, c) + ValuesAt(src, b, c)
  {
    hide Canonical;
    if b == [] {
      assert a + b == a;
    } else {
      ValuesConcat(src, a, b[..|b| - 1], c);
      assert (a + b)[..|a + b| - 1] == a + b[..|b| - 1];
    }
  }

  lemma ValuesOfOne(src: Header, k: string, c: string)
    requires k in src
    ensures ValuesAt(src, [k], c) == if Canonical(k) == c then src[k] else []
  {
    hide Canonical;
    assert [k][..0] == [];
    assert [] + src[k] == src[k];
  }

  /** The values of any two spellings of c are the same in either order. */
  ghost predicate CommuteAt(src: Header, c: string) {
    forall j, k :: j in src && k in src && Canonical(j) == c && Canonical(k) == c ==> src[j] + src[k] == src[k] + src[j]
  }

  lemma EmptyCommutes(x: seq<string>, y: seq<string>)
    ensures x == [] || y == [] ==> x + y == y + x
  {
    if x == [] { assert x + y == y + x; }
    if y == [] { assert x + y == y + x; }
  }

  /** Then one name may as well be visited last. */
  lemma {:induction false} VisitLast(src: Header, ks: seq<string>, i: nat, c: string)
    requires i < |ks| && (forall k :: k in ks ==> k in src) && CommuteAt(src, c)
    ensures ValuesAt(src, ks, c) == ValuesAt(src, ks[..i] + ks[i + 1..], c) + ValuesAt(src, [ks[i]], c)
  {
    hide Canonical, ValuesAt, CommuteAt;
    var a, x, b := ks[..i], [ks[i]], ks[i + 1..];
    assert ks == a + x + b;
    ValuesConcat(src, a + x, b, c);
    ValuesConcat(src, a, x, c);
    ValuesConcat(src, a, b, c);
    CommuteAcross(src, ks[i], b, c);
    var va, vx, vb := ValuesAt(src, a, c), ValuesAt(src, x, c), ValuesAt(src, b, c);
    assert (va + vx) + vb == va + (vx + vb);
    assert va + (vb + vx) == (va + vb) + vx;
  }

  lemma {:induction false} CommuteAcross(src: Header, k: string, b: seq<string>, c: string)
    requires k in src && (forall j :: j in b ==> j in src) && CommuteAt(src, c)
    ensures ValuesAt(src, [k], c) + ValuesAt(src, b, c) == ValuesAt(src, b, c) + ValuesAt(src, [k], c)
  {
    var v := ValuesAt(src, [k], c);
    if b == [] {
      assert v + [] == [] + v;
    } else {
      hide Canonical, ValuesAt;
      var front, j := b[..|b| - 1], b[|b| - 1];
      CommuteAcross(src, k, front, c);
      assert b == front + [j];
      ValuesConcat(src, front, [j], c);
      ValuesOfOne(src, k, c);
      ValuesOfOne(src, j, c);
      EmptyCommutes(v, ValuesAt(src, [j], c));
      SwapPast(v, ValuesAt(src, front, c), ValuesAt(src, [j], c));
    }
  }

  lemma SwapPast(v: seq<string>, w: seq<string>, u: seq<string>)
    requires v + w == w + v && v + u == u + v
    ensures v + (w + u) == (w + u) + v
  {
    assert v + (w + u) == (v + w) + u;
    assert (w + v) + u == w + (v + u);
    assert w + (u + v) == (w + u) + v;
  }

  /** So names visited in any two orders leave the same values under c. */
  lemma {:induction false} ValuesAgree(src: Header, ks: seq<string>, ls: seq<string>, c: string)
    requires NoDup(ks) && NoDup(ls) && forall x :: x in ks <==> x in ls
    requires (forall k :: k in ks ==> k in src) && CommuteAt(src, c)
    ensures (forall l :: l in ls ==> l in src) && ValuesAt(src, ks, c) == ValuesAt(src, ls, c)
  {
    hide Canonical, ValuesAt, CommuteAt;
    if ks == [] {
      FirstMember(ls);
    } else {
      var k := ks[|ks| - 1];
      assert k in ls;
      var i :| 0 <= i < |ls| && ls[i] == k;
      var rest := ls[..i] + ls[i + 1..];
      VisitLast(src, ls, i, c);
      VisitLast(src, ks, |ks| - 1, c);
      SameRest(ks, ls, i);
      assert ks[..|ks| - 1] + ks[|ks|..] == ks[..|ks| - 1];
      ValuesAgree(src, ks[..|ks| - 1], rest, c);
    }
  }

  lemma FirstMember(s: seq<string>)
    ensures s == [] || s[0] in s
  {
  }

  lemma SameRest(ks: seq<string>, ls: seq<string>, i: nat)
    requires NoDup(ks) && NoDup(ls) && forall x :: x in ks <==> x in ls
    requires i < |ls| && ks != [] && ls[i] == ks[|ks| - 1]
    ensures var rest := ls[..i] + ls[i + 1..];
            NoDup(rest) && forall x :: x in ks[..|ks| - 1] <==> x in rest
  {
    var front, rest := ks[..|ks| - 1], ls[..i] + ls[i + 1..];
    assert ks == front + [ks[|ks| - 1]];
    assert ls == ls[..i] + [ls[i]] + ls[i + 1..];
    assert forall x :: x in front <==> x in ks && x != ls[i];
    assert forall x :: x in rest <==> x in ls && x != ls[i];
  }

  lemma {:induction false} SomeOrder(names: set<string>) returns (ks: seq<string>)
    ensures NoDup(ks) && forall k :: k in ks <==> k in names
  {
    if names == {} {
      ks := [];
    } else {
      var k :| k in names;
      var rest := SomeOrder(names - {k});
      assert k !in rest;
      ks := rest + [k];
    }
  }

  /** Two walks that differ in nothing but which of j and k comes first, last of all. */
  lemma LastTwoSwapped(src: Header, j: string, k: string) returns (rest: seq<string>)
    requires j in src && k in src && j != k
    ensures IsWalk(src, rest + [j] + [k]) && IsWalk(src, rest + [k] + [j])
  {
    rest := SomeOrder(src.Keys - {j, k});
    assert j !in rest && k !in rest;
  }

  lemma SwappedValues(src: Header, rest: seq<string>, j: string, k: string, c: string)
    requires j in src && k in src && forall x :: x in rest ==> x in src
    ensures var v, w := ValuesAt(src, rest + [j] + [k], c), ValuesAt(src, rest + [k] + [j], c);
            v == w <==> !(Canonical(j) == c && Canonical(k) == c) || src[j] + src[k] == src[k] + src[j]
  {
    hide Canonical, ValuesAt;
    var had := ValuesAt(src, rest, c);
    ValuesOfOne(src, j, c);
    ValuesOfOne(src, k, c);
    ValuesConcat(src, rest + [j], [k], c);
    ValuesConcat(src, rest + [k], [j], c);
    ValuesConcat(src, rest, [j], c);
    ValuesConcat(src, rest, [k], c);
    if Canonical(j) == c && Canonical(k) == c {
      assert (had + src[j]) + src[k] == had + (src[j] + src[k]);
      assert (had + src[k]) + src[j] == had + (src[k] + src[j]);
      AppendCancels(had, src[j] + src[k], src[k] + src[j]);
    }
  }

  lemma AppendCancels(a: seq<string>, x: seq<string>, y: seq<string>)
    ensures a + x == a + y <==> x == y
  {
    if a + x == a + y {
      assert x == (a + x)[|a|..] && y == (a + y)[|a|..];
    }
  }

  /** Every walk of src fills the same header exactly when any two spellings of one name
      have values that are the same in either order. */
  lemma WalkIrrelevantIff(src: Header)
    ensures (forall ks: seq<string>, ls: seq<string> :: IsWalk(src, ks) && IsWalk(src, ls) ==>
               AddedInOrder(src, ks) == AddedInOrder(src, ls))
            <==> (forall c: string :: CommuteAt(src, c))
  {
    hide AddedInOrder, ValuesAt, CommuteAt, NoDup;
    if forall c: string :: CommuteAt(src, c) {
      forall ks: seq<string>, ls: seq<string> | IsWalk(src, ks) && IsWalk(src, ls)
        ensures AddedInOrder(src, ks) == AddedInOrder(src, ls)
      {
        forall c: string
          ensures c in AddedInOrder(src, ks) <==> c in AddedInOrder(src, ls)
          ensures c in AddedInOrder(src, ks) ==> AddedInOrder(src, ks)[c] == AddedInOrder(src, ls)[c]
        {
          WalksAgreeAt(src, ks, ls, c);
        }
      }
    } else {
      var c: string :| !CommuteAt(src, c);
      var ks, ls := WalksDiffer(src, c);
    }
  }

  lemma WalksAgreeAt(src: Header, ks: seq<string>, ls: seq<string>, c: string)
    requires IsWalk(src, ks) && IsWalk(src, ls) && CommuteAt(src, c)
    ensures (forall k :: k in ks ==> k in src) && forall l :: l in ls ==> l in src
    ensures var a, b := AddedInOrder(src, ks), AddedInOrder(src, ls);
            (c in a <==> c in b) && (c in a ==> a[c] == b[c])
  {
    hide CommuteAt, AddedInOrder, ValuesAt;
    AddedAt(src, ks, c);
    AddedAt(src, ls, c);
    ValuesAgree(src, ks, ls, c);
  }

  /** Two walks that leave different values under c, and the same under every other name. */
  lemma WalksDiffer(src: Header, c: string) returns (ks: seq<string>, ls: seq<string>)
    requires !CommuteAt(src, c)
    ensures IsWalk(src, ks) && IsWalk(src, ls)
    ensures (forall k :: k in ks ==> k in src) && forall l :: l in ls ==> l in src
    ensures c in AddedInOrder(src, ks) && c in AddedInOrder(src, ls)
    ensures AddedInOrder(src, ks)[c] != AddedInOrder(src, ls)[c]
    ensures forall d :: d != c ==> ValuesAt(src, ks, d) == ValuesAt(src, ls, d)
  {
    hide AddedInOrder, ValuesAt, NoDup, Canonical;
    var j, k :| j in src && k in src && Canonical(j) == c && Canonical(k) == c && src[j] + src[k] != src[k] + src[j];
    var rest := LastTwoSwapped(src, j, k);
    ks, ls := rest + [j] + [k], rest + [k] + [j];
    assert forall x :: x in rest ==> x in ks;
    forall d ensures ValuesAt(src, ks, d) == ValuesAt(src, ls, d) <==> d != c {
      SwappedValues(src, rest, j, k, d);
    }
    AddedAt(src, ks, c);
    AddedAt(src, ls, c);
    NotBothEmpty(src, rest, j, k, c);
  }

  lemma NotBothEmpty(src: Header, rest: seq<string>, j: string, k: string, c: string)
    requires j in src && k in src && Canonical(j) == c && Canonical(k) == c && src[j] + src[k] != src[k] + src[j]
    requires forall x :: x in rest ==> x in src
    ensures ValuesAt(src, rest + [j] + [k], c) != [] && ValuesAt(src, rest + [k] + [j], c) != []
  {
    hide Canonical, ValuesAt;
    ValuesOfOne(src, j, c);
    ValuesOfOne(src, k, c);
    ValuesConcat(src, rest + [j], [k], c);
    ValuesConcat(src, rest + [k], [j], c);
    EmptyCommutes(src[j], src[k]);
  }

  /** A header that is written in place. */
  class HeaderMap {
    var m: Header

    constructor ()
      ensures m == map[]
    {
      m := map[];
    }

    method Add(name: string, value: string)
      modifies this
      ensures m == AddValues(old(m), Canonical(name), [value])
    {
      var c := Canonical(name);
      m := m[c := (if c in m then m[c] else []) + [value]];
    }

    method Set(name: string, value: string)
      modifies this
      ensures m == old(m)[Canonical(name) := [value]]
    {
      m := m[Canonical(name) := [value]];
    }

    method Del(name: string)
      modifies this
      ensures m == old(m) - {Canonical(name)}
    {
      m := m - {Canonical(name)};
    }

    /** Adds every value of src. The names come in an arbitrary order, which is returned. */
    method AddAll(src: Header) returns (ghost ks: seq<string>)
      requires m == map[]
      modifies this
      ensures IsWalk(src, ks)
      ensures m == AddedInOrder(src, ks)
    {
      hide Canonical, AddValues, AddedInOrder, NoDup;
      ks := [];
      assert NoDup(ks) && AddedInOrder(src, ks) == map[] by { NoneAdded(src); }
      var left := src.Keys;
      while left != {}
        invariant NoDup(ks) && left == src.Keys - (set k | k in ks)
        invariant forall k :: k in ks ==> k in src
        invariant m == AddedInOrder(src, ks)
        decreases |left|
      {
        var k :| k in left;
        AddField(k, src[k]);
        left := left - {k};
        OneAdded(src, ks, k);
        ks := ks + [k];
      }
    }

    /** Adds the values vs under name, one at a time. */
    method AddField(name: string, vs: seq<string>)
      modifies this
      ensures m == AddValues(old(m), Canonical(name), vs)
    {
      for i := 0 to |vs|
        invariant m == AddValues(old(m), Canonical(name), vs[..i])
      {
        assert vs[..i + 1] == vs[..i] + [vs[i]];
        assert old(m) == AddValues(old(m), Canonical(name), []);
        AddValuesTwice(old(m), Canonical(name), vs[..i], [vs[i]]);
        Add(name, vs[i]);
      }
      assert vs[..|vs|] == vs;
    }
  }

  lemma NoneAdded(src: Header)
    ensures NoDup<string>([]) && AddedInOrder(src, []) == map[]
  {
  }

  lemma OneAdded(src: Header, ks: seq<string>, k: string)
    requires k in src && k !in ks && NoDup(ks) && forall j :: j in ks ==> j in src
    ensures NoDup(ks + [k]) && (set j | j in ks + [k]) == (set j | j in ks) + {k}
    ensures AddedInOrder(src, ks + [k]) == AddValues(AddedInOrder(src, ks), Canonical(k), src[k])
  {
    assert (ks + [k])[..|ks|] == ks;
  }

  lemma AddValuesTwice(h: Header, c: string, a: seq<string>, b: seq<string>)
    ensures AddValues(AddValues(h, c, a), c, b) == AddValues(h, c, a + b)
  {
    var had := if c in h then h[c] else [];
    assert had + (a + b) == (had + a) + b;
    if a == [] { assert a + b == b; }
    if b == [] { assert a + b == a; }
  }
}
