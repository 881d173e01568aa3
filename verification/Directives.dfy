/**
 Comma-separated header text put together from its parts: what the string operations of
 the policies make of a line is stated on these parts.
 */
module Directives {
  import opened Basics
  import opened Text

  /** White space on characters of one byte: space, tab to carriage return, NEL and NBSP. */
  predicate White(c: char) {
    c as int in {0x20, 0x09, 0x0A, 0x0B, 0x0C, 0x0D, 0x85, 0xA0}
  }

  predicate AllWhite(s: string) {
    forall i :: 0 <= i < |s| ==> White(s[i])
  }

  /** One element of a list: a name, perhaps "=" and a value, and white space around it. */
  datatype Item = Item(before: string, name: string, value: Option<string>, after: string)

  predicate IsItem(x: Item) {
    && AllWhite(x.before) && AllWhite(x.after)
    && ',' !in x.name && '=' !in x.name
    && (x.value.Some? ==> ',' !in x.value.value)
    && (x.name != "" ==> !White(x.name[0]))
    && (x.name != "" && x.value.None? ==> !White(x.name[|x.name| - 1]))
  }

  predicate AreItems(xs: seq<Item>) {
    forall i :: 0 <= i < |xs| ==> IsItem(xs[i])
  }

  function Core(x: Item): string {
    if x.value.Some? then x.name + "=" + x.value.value else x.name
  }

  function ItemText(x: Item): string { x.before + Core(x) + x.after }

  /** The elements with commas between. */
  function LineOf(xs: seq<Item>): string {
    if xs == [] then ""
    else if |xs| == 1 then ItemText(xs[0])
    else ItemText(xs[0]) + "," + LineOf(xs[1..])
  }

  /** Some element has this name, letter case aside. */
  predicate NamedIn(xs: seq<Item>, name: string) {
    exists i :: 0 <= i < |xs| && EqualFold(xs[i].name, name)
  }

  /** Some element is this name and no more, letter case aside. */
  predicate ListedIn(xs: seq<Item>, name: string) {
    exists i :: 0 <= i < |xs| && xs[i].value.None? && EqualFold(xs[i].name, name)
  }

  // ---------- trimming ----------

  lemma WhiteIsSpace(c: char)
    ensures White(c) <==> IsSpace(c)
  {
  }

  lemma {:induction false} TrimLeftWhite(w: string, s: string)
    requires AllWhite(w)
    ensures TrimLeft(w + s) == TrimLeft(s)
  {
    if w == [] {
      assert w + s == s;
    } else {
      WhiteIsSpace(w[0]);
      TrimLeftWhite(w[1..], s);
      assert (w + s)[1..] == w[1..] + s;
    }
  }

  lemma {:induction false} TrimRightWhite(s: string, w: string)
    requires AllWhite(w)
    ensures TrimRight(s + w) == TrimRight(s)
  {
    if w == [] {
      assert s + w == s;
    } else {
      WhiteIsSpace(w[|w| - 1]);
      TrimRightWhite(s, w[..|w| - 1]);
      assert (s + w)[..|s + w| - 1] == s + w[..|w| - 1];
    }
  }

  lemma {:induction false} TrimRightAfter(p: string, v: string)
    requires p != "" && !White(p[|p| - 1])
    ensures TrimRight(p + v) == p + TrimRight(v)
  {
    if v == [] {
      WhiteIsSpace(p[|p| - 1]);
      assert p + v == p && p + [] == p;
    } else {
      WhiteIsSpace(v[|v| - 1]);
      if IsSpace(v[|v| - 1]) {
        TrimRightAfter(p, v[..|v| - 1]);
        assert (p + v)[..|p + v| - 1] == p + v[..|v| - 1];
      }
    }
  }

  lemma TrimLeftNone(s: string)
    requires s != "" ==> !White(s[0])
    ensures TrimLeft(s) == s
  {
    if s != "" { WhiteIsSpace(s[0]); }
  }

  lemma NothingTrimmed()
    ensures TrimLeft("") == "" && TrimRight("") == ""
  {
  }

  /** Trimming leaves the name, or the name, "=" and the value trimmed at its end. */
  lemma TrimItem(x: Item)
    requires IsItem(x)
    ensures TrimSpace(ItemText(x)) == if x.value.Some? then x.name + "=" + TrimRight(x.value.value) else x.name
  {
    hide TrimLeft, TrimRight, White;
    var core := Core(x);
    assert ItemText(x) == x.before + (core + x.after);
    TrimLeftWhite(x.before, core + x.after);
    NothingTrimmed();
    if core == "" {
      TrimLeftWhite(x.after, "");
      assert core + x.after == x.after + "" && x.after == x.after + "";
    } else {
      EqualsIsNotWhite();
      TrimLeftNone(core + x.after);
      TrimRightWhite(core, x.after);
      if x.value.Some? {
        TrimRightAfter(x.name + "=", x.value.value);
      } else {
        TrimRightAfter(core, "");
        assert core + "" == core;
      }
    }
  }

  lemma EqualsIsNotWhite()
    ensures !White('=') && !White(',')
  {
  }

  // ---------- splitting ----------

  function Texts(xs: seq<Item>): (ts: seq<string>)
    ensures |ts| == |xs| && forall i :: 0 <= i < |xs| ==> ts[i] == ItemText(xs[i])
  {
    seq(|xs|, i requires 0 <= i < |xs| => ItemText(xs[i]))
  }

  lemma WhiteHasNoComma(w: string)
    requires AllWhite(w)
    ensures ',' !in w
  {
    EqualsIsNotWhite();
  }

  lemma ItemHasNoComma(x: Item)
    requires IsItem(x)
    ensures ',' !in ItemText(x)
  {
    WhiteHasNoComma(x.before);
    WhiteHasNoComma(x.after);
  }

  /** Splitting a line at its commas gives the elements back. */
  lemma {:induction false} SplitLine(xs: seq<Item>)
    requires xs != [] && AreItems(xs)
    ensures Split(LineOf(xs), ',') == Texts(xs)
  {
    hide IsItem, ItemText;
    ItemHasNoComma(xs[0]);
    NoSeparator(ItemText(xs[0]), ',');
    if |xs| > 1 {
      SplitLine(xs[1..]);
      SplitConcat(ItemText(xs[0]), ',', LineOf(xs[1..]));
      hide Split;
      assert Texts(xs) == [ItemText(xs[0])] + Texts(xs[1..]);
    }
  }

  lemma SplitCommaLine(xs: seq<Item>)
    requires AreItems(xs)
    ensures SplitComma(LineOf(xs)) == if LineOf(xs) == "" then [] else Texts(xs)
    ensures LineOf(xs) == "" ==> xs == [] || (|xs| == 1 && xs[0].name == "" && xs[0].value.None?)
  {
    if xs != [] { SplitLine(xs); }
  }

  // ---------- every line has such parts ----------

  lemma {:induction false} LeftWhite(t: string) returns (w: string)
    ensures AllWhite(w) && t == w + TrimLeft(t)
    ensures TrimLeft(t) != "" ==> !White(TrimLeft(t)[0])
  {
    hide White, IsSpace;
    if t != [] && IsSpace(t[0]) {
      WhiteIsSpace(t[0]);
      var v := LeftWhite(t[1..]);
      w := [t[0]] + v;
      assert t == [t[0]] + t[1..];
    } else {
      w := "";
      if t != [] { WhiteIsSpace(t[0]); }
    }
  }

  lemma {:induction false} RightWhite(t: string) returns (w: string)
    ensures AllWhite(w) && t == TrimRight(t) + w
    ensures TrimRight(t) != "" ==> !White(TrimRight(t)[|TrimRight(t)| - 1])
  {
    hide White, IsSpace;
    if t != [] && IsSpace(t[|t| - 1]) {
      WhiteIsSpace(t[|t| - 1]);
      var v := RightWhite(t[..|t| - 1]);
      w := v + [t[|t| - 1]];
      assert t == t[..|t| - 1] + [t[|t| - 1]];
    } else {
      w := "";
      if t != [] { WhiteIsSpace(t[|t| - 1]); }
    }
  }

  lemma CoreOf(t: string) returns (before: string, core: string, after: string)
    ensures AllWhite(before) && AllWhite(after) && t == before + core + after
    ensures core != "" ==> !White(core[0]) && !White(core[|core| - 1])
  {
    hide TrimLeft, TrimRight, White;
    before := LeftWhite(t);
    var l := TrimLeft(t);
    after := RightWhite(l);
    core := TrimRight(l);
    assert t == before + core + after;
    assert core != "" ==> l[0] == core[0];
  }

  lemma ItemOf(t: string) returns (x: Item)
    requires ',' !in t
    ensures IsItem(x) && ItemText(x) == t
  {
    hide AllWhite, White;
    var before, core, after := CoreOf(t);
    assert forall i :: 0 <= i < |core| ==> core[i] == t[|before| + i];
    var k := IndexOf(core, '=');
    if k < |core| {
      x := Item(before, core[..k], Some(core[k + 1..]), after);
      assert core == core[..k] + "=" + core[k + 1..];
    } else {
      x := Item(before, core, None, after);
    }
  }

  lemma LineCons(x: Item, xs: seq<Item>)
    requires xs != []
    ensures LineOf([x] + xs) == ItemText(x) + "," + LineOf(xs)
  {
    assert ([x] + xs)[1..] == xs;
  }

  lemma {:induction false} EveryLineHasItems(line: string) returns (xs: seq<Item>)
    ensures AreItems(xs) && xs != [] && LineOf(xs) == line
    decreases |line|
  {
    hide IsItem, ItemText;
    var k := IndexOf(line, ',');
    if k == |line| {
      var x := ItemOf(line);
      xs := [x];
    } else {
      hide LineOf;
      var x := ItemOf(line[..k]);
      var rest := EveryLineHasItems(line[k + 1..]);
      xs := [x] + rest;
      LineCons(x, rest);
      assert line == line[..k] + "," + line[k + 1..];
    }
  }

  // ---------- names ----------

  lemma NothingFolds(name: string)
    requires name != ""
    ensures !EqualFold("", name)
  {
    assert |ToLower("")| == 0 && |ToLower(name)| > 0;
  }

  lemma NotOneName(a: string, b: string, name: string)
    requires '=' !in name
    ensures !EqualFold(a + "=" + b, name)
  {
    var s := a + "=" + b;
    assert s[|a|] == '=';
    if |s| == |name| {
      assert LowerChar(s[|a|]) == '=' && LowerChar(name[|a|]) != '=';
      assert ToLower(s)[|a|] != ToLower(name)[|a|];
    }
  }

  /** An element taken as a whole is a name without "=" exactly when it is that name and no more. */
  lemma ItemIsName(x: Item, name: string)
    requires IsItem(x) && '=' !in name
    ensures EqualFold(TrimSpace(ItemText(x)), name) <==> x.value.None? && EqualFold(x.name, name)
  {
    hide TrimSpace, EqualFold, TrimRight, ItemText;
    TrimItem(x);
    if x.value.Some? { NotOneName(x.name, TrimRight(x.value.value), name); }
  }
}
