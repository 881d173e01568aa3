/** What the caching policy makes of header text, in terms of that text alone. */
module PolicyText {
  import opened Basics
  import opened Text
  import opened Directives
  import opened HttpHeader
  import opened CachePolicy

  /** The first line of a field under its canonical name, or "". */
  function FirstLine(h: Header, name: string): string {
    if name in h && h[name] != [] then h[name][0] else ""
  }

  lemma FirstLineIsGet(h: Header, name: string)
    requires Canonical(name) == name
    ensures Get(h, name) == FirstLine(h, name)
  {
    hide Canonical;
  }

  lemma RequestFields(h: Header)
    ensures Get(h, "Authorization") == FirstLine(h, "Authorization")
    ensures Get(h, "Cookie") == FirstLine(h, "Cookie")
  {
    FirstLineIsGet(h, "Authorization");
    FirstLineIsGet(h, "Cookie");
  }

  lemma CacheControlField(h: Header)
    ensures Get(h, "Cache-Control") == FirstLine(h, "Cache-Control")
  {
    FirstLineIsGet(h, "Cache-Control");
  }

  lemma ResponseFields(h: Header)
    ensures Get(h, "Set-Cookie") == FirstLine(h, "Set-Cookie")
    ensures Get(h, "Vary") == FirstLine(h, "Vary")
  {
    FirstLineIsGet(h, "Set-Cookie");
    FirstLineIsGet(h, "Vary");
  }

  lemma ExpiresField(h: Header)
    ensures Get(h, "Expires") == FirstLine(h, "Expires")
  {
    FirstLineIsGet(h, "Expires");
  }

  lemma EncodingField(h: Header)
    ensures Get(h, "Accept-Encoding") == FirstLine(h, "Accept-Encoding")
  {
    FirstLineIsGet(h, "Accept-Encoding");
  }

  // ---------- directives ----------

  lemma BeforeFirst(a: string, c: char, b: string)
    requires c !in a
    ensures Before(a + [c] + b, c) == a
  {
    var s := a + [c] + b;
    assert s[|a|] == c;
    assert forall i :: 0 <= i < |a| ==> s[i] == a[i];
    assert IndexOf(s, c) == |a|;
    assert s[..|a|] == a;
  }

  lemma NameOfItem(x: Item)
    requires IsItem(x)
    ensures DirectiveName(ItemText(x)) == x.name
  {
    hide TrimSpace, ItemText, TrimRight;
    TrimItem(x);
    if x.value.Some? {
      BeforeFirst(x.name, '=', TrimRight(x.value.value));
    } else {
      BeforeNone(x.name, '=');
    }
  }

  /** A Cache-Control line has a directive exactly when some element of it has that name,
      letter case, white space and values aside. */
  lemma DirectivesOfLine(xs: seq<Item>, name: string)
    requires AreItems(xs) && name != ""
    ensures HasDirective(LineOf(xs), name) <==> NamedIn(xs, name)
  {
    hide IsItem, ItemText, DirectiveName, EqualFold;
    SplitCommaLine(xs);
    ScanIffNamed(SplitComma(LineOf(xs)), name);
    forall i | 0 <= i < |xs| ensures DirectiveName(ItemText(xs[i])) == xs[i].name { NameOfItem(xs[i]); }
    NothingFolds(name);
    hide SplitComma;
  }

  /** The Vary filter passes a line exactly when it is empty or every element is Accept-Encoding. */
  lemma VaryOfLine(xs: seq<Item>)
    requires AreItems(xs)
    ensures OnlyAcceptEncoding(SplitComma(LineOf(xs))) <==>
            LineOf(xs) == "" ||
            forall i :: 0 <= i < |xs| ==> xs[i].value.None? && EqualFold(xs[i].name, "Accept-Encoding")
  {
    hide IsItem, ItemText, EqualFold, TrimSpace, OnlyAcceptEncoding;
    SplitCommaLine(xs);
    hide SplitComma, LineOf;
    OnlyAcceptEncodingMeans(SplitComma(LineOf(xs)));
    forall i | 0 <= i < |xs|
      ensures IsAcceptEncoding(ItemText(xs[i])) <==> xs[i].value.None? && EqualFold(xs[i].name, "Accept-Encoding")
    {
      ItemIsName(xs[i], "Accept-Encoding");
    }
    hide IsAcceptEncoding;
    assert LineOf(xs) != "" ==> forall i :: 0 <= i < |xs| ==> SplitComma(LineOf(xs))[i] == ItemText(xs[i]);
  }

  /** Exactly which requests may use the cache, by the text of their first lines. */
  lemma RequestTestOnText(verb: string, h: Header, opts: RequestOptions, cc: seq<Item>)
    requires AreItems(cc) && FirstLine(h, "Cache-Control") == LineOf(cc)
    ensures IsRequestCacheable(verb, h, opts) <==>
            && (verb == "GET" || verb == "HEAD")
            && (opts.withAuthorization || FirstLine(h, "Authorization") == "")
            && (opts.withCookies || FirstLine(h, "Cookie") == "")
            && !NamedIn(cc, "no-store") && !NamedIn(cc, "no-cache")
  {
    hide Get, FirstLine, HasDirective, NamedIn, LineOf;
    RequestFields(h);
    CacheControlField(h);
    DirectivesOfLine(cc, "no-store");
    DirectivesOfLine(cc, "no-cache");
  }

  /** Exactly which responses pass the filter, by status, size and the text of their first lines. */
  lemma ResponseTestOnText(
    verb: string, status: int, h: Header, bodySize: int, opts: ResponseOptions, cc: seq<Item>, vary: seq<Item>)
    requires AreItems(cc) && FirstLine(h, "Cache-Control") == LineOf(cc)
    requires AreItems(vary) && FirstLine(h, "Vary") == LineOf(vary)
    ensures IsResponseCacheable(verb, status, h, bodySize, opts) <==>
            && (verb == "GET" || verb == "HEAD")
            && (status == 200 || status == 203 || status == 204 || status == 206 || status == 301 || status == 308)
            && !NamedIn(cc, "no-store")
            && (opts.cachePrivate || (!NamedIn(cc, "private") && FirstLine(h, "Set-Cookie") == ""))
            && (LineOf(vary) == "" ||
                forall i :: 0 <= i < |vary| ==> vary[i].value.None? && EqualFold(vary[i].name, "Accept-Encoding"))
            && (opts.maxEntryBytes <= 0 || bodySize <= opts.maxEntryBytes)
  {
    hide Get, FirstLine, HasDirective, NamedIn, LineOf, SplitComma, EqualFold, OnlyAcceptEncoding;
    ResponseFields(h);
    CacheControlField(h);
    DirectivesOfLine(cc, "no-store");
    DirectivesOfLine(cc, "private");
    VaryOfLine(vary);
    StarIsOther();
  }

  lemma StarIsOther()
    ensures !OnlyAcceptEncoding(SplitComma("*"))
  {
    EmptyAndStar();
    hide SplitComma, IsAcceptEncoding;
    OnlyAcceptEncodingMeans(SplitComma("*"));
  }

  // ---------- lifetimes ----------

  /** The element is max-age with a usable number; the number is read to the end of the element. */
  predicate GivesAge(x: Item, n: int) {
    EqualFold(x.name, "max-age") && x.value.Some? && Atoi(TrimRight(x.value.value)) == Some(n) && n >= 0
  }

  lemma AgePrefix(name: string, rest: string)
    requires '=' !in name
    ensures HasPrefix(ToLower(name + "=" + rest), "max-age=") <==> EqualFold(name, "max-age")
  {
    var t := name + "=" + rest;
    var l := ToLower(t);
    assert t[|name|] == '=';
    assert |ToLower("max-age")| == 7 && ToLower("max-age") == "max-age";
    if HasPrefix(l, "max-age=") {
      assert l[..8][7] == '=';
      assert LowerChar(t[7]) == '=' && t[7] == '=';
      assert l[|name|] == '=';
      assert forall i :: 0 <= i < 8 ==> l[i] == l[..8][i] == "max-age="[i];
      assert |name| == 7;
      assert ToLower(name) == l[..7] == l[..8][..7] == "max-age";
    }
    if EqualFold(name, "max-age") {
      assert |ToLower(name)| == 7;
      assert l[..8] == ToLower(name) + "=";
    }
  }

  lemma NoAge(t: string)
    requires '=' !in t
    ensures !HasPrefix(ToLower(t), "max-age=")
  {
    if |t| >= 8 {
      assert t[7] != '=' && ToLower(t)[7] == LowerChar(t[7]) != '=';
      assert ToLower(t)[..8][7] != "max-age="[7];
    }
  }

  /** The value of a directive is that of its element. */
  lemma MaxAgeOfItem(x: Item)
    requires IsItem(x)
    ensures forall n: int :: MaxAge(ItemText(x)) == Some(n) <==> GivesAge(x, n)
  {
    hide TrimSpace, ItemText, TrimRight, Atoi, EqualFold;
    TrimItem(x);
    if x.value.Some? {
      var rest := TrimRight(x.value.value);
      var t := x.name + "=" + rest;
      AgePrefix(x.name, rest);
      if EqualFold(x.name, "max-age") {
        FoldKeepsLength(x.name, "max-age");
        assert t[8..] == rest;
      }
    } else {
      NoAge(x.name);
    }
  }

  lemma FoldKeepsLength(a: string, b: string)
    requires EqualFold(a, b)
    ensures |a| == |b|
  {
    assert |ToLower(a)| == |a| && |ToLower(b)| == |b|;
  }

  /** The first usable max-age of a line. */
  lemma FirstAgeOfLine(cc: seq<Item>)
    requires AreItems(cc)
    ensures var age := FirstMaxAge(SplitComma(LineOf(cc)));
            && (age.None? <==> forall i, n :: 0 <= i < |cc| ==> !GivesAge(cc[i], n))
            && (forall i, n ::
                  0 <= i < |cc| && GivesAge(cc[i], n) && (forall j, m :: 0 <= j < i ==> !GivesAge(cc[j], m)) ==>
                  age == Some(n))
  {
    hide IsItem, ItemText, MaxAge, GivesAge;
    SplitCommaLine(cc);
    var ds := SplitComma(LineOf(cc));
    FirstMaxAgeIs(ds);
    forall i | 0 <= i < |cc| ensures forall n: int :: MaxAge(ItemText(cc[i])) == Some(n) <==> GivesAge(cc[i], n) {
      MaxAgeOfItem(cc[i]);
    }
    if LineOf(cc) == "" {
      forall i, n | 0 <= i < |cc| ensures !GivesAge(cc[i], n) { NoNameNoAge(cc[i], n); }
    } else {
      hide SplitComma, LineOf;
      AgesAgree(cc, ds);
    }
  }

  lemma NoNameNoAge(x: Item, n: int)
    requires x.name == "" && x.value.None?
    ensures !GivesAge(x, n)
  {
  }

  lemma AgesAgree(cc: seq<Item>, ds: seq<string>)
    requires |ds| == |cc|
    requires forall i :: 0 <= i < |cc| ==> forall n: int :: MaxAge(ds[i]) == Some(n) <==> GivesAge(cc[i], n)
    requires FirstMaxAge(ds).None? <==> forall i :: 0 <= i < |ds| ==> MaxAge(ds[i]).None?
    requires FirstMaxAge(ds).Some? ==>
              exists i ::
                0 <= i < |ds| && MaxAge(ds[i]) == FirstMaxAge(ds) && forall j :: 0 <= j < i ==> MaxAge(ds[j]).None?
    ensures FirstMaxAge(ds).None? <==> forall i, n :: 0 <= i < |cc| ==> !GivesAge(cc[i], n)
    ensures forall i, n ::
              0 <= i < |cc| && GivesAge(cc[i], n) && (forall j, m :: 0 <= j < i ==> !GivesAge(cc[j], m)) ==>
              FirstMaxAge(ds) == Some(n)
  {
    hide MaxAge, GivesAge, FirstMaxAge;
    forall i | 0 <= i < |cc| && MaxAge(ds[i]).Some? ensures GivesAge(cc[i], MaxAge(ds[i]).value) {}
    forall i, n | 0 <= i < |cc| && GivesAge(cc[i], n) && forall j, m :: 0 <= j < i ==> !GivesAge(cc[j], m)
      ensures FirstMaxAge(ds) == Some(n)
    {
      assert MaxAge(ds[i]) == Some(n);
      var k :| 0 <= k < |ds| && MaxAge(ds[k]) == FirstMaxAge(ds) && forall j :: 0 <= j < k ==> MaxAge(ds[j]).None?;
      assert GivesAge(cc[k], MaxAge(ds[k]).value);
      assert i == k;
    }
  }

  lemma SignedNumber(d: string)
    requires d != "" && forall i :: 0 <= i < |d| ==> IsDigit(d[i])
    ensures Atoi("+" + d) == Atoi(d)
    ensures Atoi("-" + d).Some? ==> Atoi("-" + d).value == -(Digits(d) as int)
  {
    assert IsDigit(d[0]);
    assert ("+" + d)[1..] == d && ("-" + d)[1..] == d;
  }

  /** What the number may look like: digits, with or without a plus. A minus makes it negative. */
  lemma NumbersRead(n: nat, d: string)
    requires d == Decimal(n)
    ensures Atoi(d) == Atoi("+" + d) == if n <= 9223372036854775807 then Some(n) else None
    ensures Atoi("-" + d).Some? ==> Atoi("-" + d).value == -(n as int)
  {
    hide Atoi, Digits;
    AtoiOfDecimal(n);
    DigitsOfDecimal(n);
    hide Decimal;
    SignedNumber(d);
  }

  /** Anything but digits after the first character makes it unusable. */
  lemma OthersDoNot(s: string, i: nat)
    requires 0 < i < |s| && !('0' <= s[i] <= '9')
    ensures Atoi(s) == None
  {
    assert !IsDigit(s[i]);
    assert s[1..][i - 1] == s[i];
  }

  lemma {:induction false} ExtOf(stem: string, e: string)
    requires '.' !in e && '/' !in e
    ensures Ext(stem + "." + e) == "." + e
  {
    var path := stem + "." + e;
    if e == "" {
      assert path[|path| - 1] == '.';
    } else {
      ExtOf(stem, e[..|e| - 1]);
      assert path[..|path| - 1] == stem + "." + e[..|e| - 1];
    }
  }

  const STATIC_SUFFIXES: set<string> :=
    {"css", "js", "mjs", "map", "png", "jpg", "jpeg", "webp", "svg", "ico", "json"}

  lemma DotBefore(x: string, e: string)
    ensures "." + x == "." + e <==> x == e
  {
    assert ("." + x)[1..] == x && ("." + e)[1..] == e;
  }

  lemma SuffixesAreExtensions(x: string)
    ensures "." + x in STATIC_EXTENSIONS <==> x in STATIC_SUFFIXES
  {
    assert ".css" == "." + "css";
    DotBefore(x, "css");
    assert ".js" == "." + "js";
    DotBefore(x, "js");
    assert ".mjs" == "." + "mjs";
    DotBefore(x, "mjs");
    assert ".map" == "." + "map";
    DotBefore(x, "map");
    assert ".png" == "." + "png";
    DotBefore(x, "png");
    assert ".jpg" == "." + "jpg";
    DotBefore(x, "jpg");
    assert ".jpeg" == "." + "jpeg";
    DotBefore(x, "jpeg");
    assert ".webp" == "." + "webp";
    DotBefore(x, "webp");
    assert ".svg" == "." + "svg";
    DotBefore(x, "svg");
    assert ".ico" == "." + "ico";
    DotBefore(x, "ico");
    assert ".json" == "." + "json";
    DotBefore(x, "json");
  }

  /** A URL counts as static exactly when what stands before any '?' ends in a dot and one of
      these, in any letter case. */
  lemma StaticOnText(path: string, query: string)
    requires '?' !in path && (query == "" || query[0] == '?')
    ensures IsStatic(path + query) <==>
            exists stem: string, e: string ::
              path == stem + "." + e && '.' !in e && '/' !in e && ToLower(e) in STATIC_SUFFIXES
  {
    hide STATIC_EXTENSIONS, STATIC_SUFFIXES, Ext, Before, ToLower;
    PathOf(path, query);
    if IsStatic(path + query) {
      var stem, e := StaticSuffix(path);
    }
    forall stem: string, e: string |
      path == stem + "." + e && '.' !in e && '/' !in e && ToLower(e) in STATIC_SUFFIXES
      ensures IsStatic(path + query)
    {
      ExtOf(stem, e);
      LowerDot(e);
      SuffixesAreExtensions(ToLower(e));
    }
  }

  lemma LowerDot(e: string)
    ensures ToLower("." + e) == "." + ToLower(e)
  {
  }

  lemma StaticSuffix(path: string) returns (stem: string, e: string)
    requires ToLower(Ext(path)) in STATIC_EXTENSIONS
    ensures path == stem + "." + e && '.' !in e && '/' !in e && ToLower(e) in STATIC_SUFFIXES
  {
    hide STATIC_EXTENSIONS, STATIC_SUFFIXES, Ext, ToLower;
    NoEmptyExtension();
    ExtIsFromLastDot(path);
    var x := Ext(path);
    stem, e := path[..|path| - |x|], x[1..];
    assert x == "." + e;
    assert path == stem + x;
    assert forall c :: c in e ==> c in x;
    LowerDot(e);
    SuffixesAreExtensions(ToLower(e));
  }

  lemma NoEmptyExtension()
    ensures "" !in STATIC_EXTENSIONS && ToLower("") == ""
  {
  }

  lemma PathOf(path: string, query: string)
    requires '?' !in path && (query == "" || query[0] == '?')
    ensures Before(path + query, '?') == path
  {
    if query == "" {
      BeforeNone(path, '?');
      assert path + query == path;
    } else {
      BeforeFirst(path, '?', query[1..]);
      assert path + query == path + ['?'] + query[1..];
    }
  }

  /**
   How long a response is kept, in nanoseconds, by the text of its first lines: the first
   usable max-age; else its Expires date if that lies ahead; else the default for static
   URLs; else not at all.
   */
  lemma LifetimeOnText(
    h: Header, url: string, defaultTTL: int, now: int, parse: string -> Option<int>, cc: seq<Item>)
    requires AreItems(cc) && FirstLine(h, "Cache-Control") == LineOf(cc)
    ensures var ttl, exp := TTLFor(h, url, defaultTTL, now, parse), FirstLine(h, "Expires");
            && (forall i, n ::
                  0 <= i < |cc| && GivesAge(cc[i], n) && (forall j, m :: 0 <= j < i ==> !GivesAge(cc[j], m)) ==>
                    && ttl <= n * 1_000_000_000
                    && (ttl == n * 1_000_000_000 <==> n <= 9223372036))
            && ((forall i, n :: 0 <= i < |cc| ==> !GivesAge(cc[i], n)) ==>
                  if exp != "" && parse(exp).Some? && parse(exp).value > now then
                    ttl == Min(parse(exp).value - now, 0x7FFF_FFFF_FFFF_FFFF)
                  else if defaultTTL > 0 && IsStatic(url) then
                    && ttl <= defaultTTL * 1_000_000_000
                    && (ttl == defaultTTL * 1_000_000_000 <==> defaultTTL <= 9223372036)
                  else ttl == 0)
  {
    hide Get, FirstLine, SplitComma, LineOf, IsStatic, FirstMaxAge, GivesAge, Seconds, AreItems;
    CacheControlField(h);
    ExpiresField(h);
    FirstAgeOfLine(cc);
    var ttl := TTLFor(h, url, defaultTTL, now, parse);
    forall i, n |
      0 <= i < |cc| && GivesAge(cc[i], n) && forall j, m :: 0 <= j < i ==> !GivesAge(cc[j], m)
      ensures ttl <= n * 1_000_000_000 && (ttl == n * 1_000_000_000 <==> n <= 9223372036)
    {
      AgeIsNat(cc[i], n);
      SecondsExactIff(n);
      assert FirstMaxAge(SplitComma(LineOf(cc))) == Some(n);
      assert ttl == Seconds(n);
    }
    if defaultTTL > 0 { SecondsExactIff(defaultTTL); }
  }

  lemma AgeIsNat(x: Item, n: int)
    requires GivesAge(x, n)
    ensures n >= 0
  {
  }
}
