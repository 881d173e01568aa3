/** What may be cached, for how long, and under which key. */
module CachePolicy {
  import opened Basics
  import opened Text
  import opened HttpHeader

  datatype RequestOptions = RequestOptions(withAuthorization: bool, withCookies: bool)
  datatype ResponseOptions = ResponseOptions(maxEntryBytes: int, cachePrivate: bool)

  const CACHEABLE_STATUSES: set<int> := {200, 203, 204, 206, 301, 308}

  const STATIC_EXTENSIONS: set<string> :=
    {".css", ".js", ".mjs", ".map", ".png", ".jpg", ".jpeg", ".webp", ".svg", ".ico", ".json"}

  /** The name of a directive: what stands before '=' after trimming. */
  function DirectiveName(d: string): string { Before(TrimSpace(d), '=') }

  predicate ScanDirective(ds: seq<string>, name: string) {
    ds != [] && (EqualFold(DirectiveName(ds[0]), name) || ScanDirective(ds[1..], name))
  }

  predicate HasDirective(cc: string, name: string) {
    ScanDirective(SplitComma(cc), name)
  }

  predicate IsRequestCacheable(verb: string, h: Header, opts: RequestOptions) {
    if verb != "GET" && verb != "HEAD" then false
    else if !opts.withAuthorization && Get(h, "Authorization") != "" then false
    else if !opts.withCookies && Get(h, "Cookie") != "" then false
    else
      var cc := Get(h, "Cache-Control");
      !HasDirective(cc, "no-store") && !HasDirective(cc, "no-cache")
  }

  /** The Vary filter's loop: every field is Accept-Encoding. */
  predicate OnlyAcceptEncoding(fields: seq<string>) {
    fields == [] || (TrimSpace(ToLower(fields[0])) == "accept-encoding" && OnlyAcceptEncoding(fields[1..]))
  }

  predicate IsResponseCacheable(verb: string, status: int, h: Header, bodySize: int, opts: ResponseOptions) {
    if verb != "GET" && verb != "HEAD" then false
    else if status !in CACHEABLE_STATUSES then false
    else
      var cc := Get(h, "Cache-Control");
      var vary := Get(h, "Vary");
      if HasDirective(cc, "no-store") then false
      else if !opts.cachePrivate && HasDirective(cc, "private") then false
      else if !opts.cachePrivate && Get(h, "Set-Cookie") != "" then false
      else if vary == "*" then false
      else if vary != "" && !OnlyAcceptEncoding(SplitComma(vary)) then false
      else !(opts.maxEntryBytes > 0 && bodySize > opts.maxEntryBytes)
  }

  /** Some directive of the line has this name, letter case aside. */
  ghost predicate NamesDirective(line: string, name: string) {
    exists i :: 0 <= i < |SplitComma(line)| && EqualFold(DirectiveName(SplitComma(line)[i]), name)
  }

  lemma {:induction false} ScanIffNamed(ds: seq<string>, name: string)
    ensures ScanDirective(ds, name) <==> exists i :: 0 <= i < |ds| && EqualFold(DirectiveName(ds[i]), name)
  {
    if ds != [] {
      hide EqualFold, DirectiveName;
      ScanIffNamed(ds[1..], name);
      assert forall i :: 0 < i < |ds| ==> ds[i] == ds[1..][i - 1];
    }
  }

  /** What may use the cache, and what may go into it, by the first line of each field. */
  lemma OnlyPermittedTrafficIsCached(
    verb: string, req: Header, reqOpts: RequestOptions, status: int, resp: Header, bodySize: int, opts: ResponseOptions)
    ensures IsRequestCacheable(verb, req, reqOpts) <==>
            && verb in {"GET", "HEAD"}
            && (Get(req, "Authorization") != "" ==> reqOpts.withAuthorization)
            && (Get(req, "Cookie") != "" ==> reqOpts.withCookies)
            && !NamesDirective(Get(req, "Cache-Control"), "no-store")
            && !NamesDirective(Get(req, "Cache-Control"), "no-cache")
    ensures IsResponseCacheable(verb, status, resp, bodySize, opts) <==>
            && verb in {"GET", "HEAD"} && status in CACHEABLE_STATUSES
            && !NamesDirective(Get(resp, "Cache-Control"), "no-store")
            && (NamesDirective(Get(resp, "Cache-Control"), "private") || Get(resp, "Set-Cookie") != "" ==>
                  opts.cachePrivate)
            && (forall i :: 0 <= i < |SplitComma(Get(resp, "Vary"))| ==>
                  IsAcceptEncoding(SplitComma(Get(resp, "Vary"))[i]))
            && (opts.maxEntryBytes > 0 ==> bodySize <= opts.maxEntryBytes)
  {
    hide EqualFold, DirectiveName, Get, CACHEABLE_STATUSES, SplitComma;
    ScanIffNamed(SplitComma(Get(req, "Cache-Control")), "no-store");
    ScanIffNamed(SplitComma(Get(req, "Cache-Control")), "no-cache");
    ScanIffNamed(SplitComma(Get(resp, "Cache-Control")), "no-store");
    ScanIffNamed(SplitComma(Get(resp, "Cache-Control")), "private");
    OnlyAcceptEncodingMeans(SplitComma(Get(resp, "Vary")));
    EmptyAndStar();
  }

  lemma EmptyAndStar()
    ensures SplitComma("") == []
    ensures !IsAcceptEncoding("*") && |SplitComma("*")| == 1 && SplitComma("*")[0] == "*"
  {
    NoSeparator("*", ',');
    assert |ToLower(TrimSpace("*"))| <= 1;
  }

  lemma {:induction false} OnlyAcceptEncodingMeans(fields: seq<string>)
    ensures OnlyAcceptEncoding(fields) <==> forall i :: 0 <= i < |fields| ==> IsAcceptEncoding(fields[i])
  {
    if fields != [] {
      TrimLower(fields[0]);
      OnlyAcceptEncodingMeans(fields[1..]);
      assert forall i :: 0 < i < |fields| ==> fields[i] == fields[1..][i - 1];
    }
  }

  /** A Vary field that names Accept-Encoding, in any letter case. */
  predicate IsAcceptEncoding(field: string) {
    EqualFold(TrimSpace(field), "Accept-Encoding")
  }

  lemma LowerSpace(c: char)
    ensures IsSpace(LowerChar(c)) <==> IsSpace(c)
  {
  }

  lemma {:induction false} TrimLeftLower(s: string)
    ensures TrimLeft(ToLower(s)) == ToLower(TrimLeft(s))
  {
    if s != [] {
      LowerSpace(s[0]);
      TrimLeftLower(s[1..]);
      assert ToLower(s)[1..] == ToLower(s[1..]);
    }
  }

  lemma {:induction false} TrimRightLower(s: string)
    ensures TrimRight(ToLower(s)) == ToLower(TrimRight(s))
  {
    if s != [] {
      LowerSpace(s[|s| - 1]);
      TrimRightLower(s[..|s| - 1]);
      assert ToLower(s)[..|s| - 1] == ToLower(s[..|s| - 1]);
    }
  }

  lemma TrimLower(s: string)
    ensures TrimSpace(ToLower(s)) == ToLower(TrimSpace(s))
    ensures TrimSpace(ToLower(s)) == "accept-encoding" <==> IsAcceptEncoding(s)
  {
    TrimLeftLower(s);
    TrimRightLower(TrimLeft(s));
    assert ToLower("Accept-Encoding") == "accept-encoding";
  }

  // ---------- over all lines ----------

  /** Some line of the field has a directive of this name. */
  ghost predicate AnyLineNames(h: Header, field: string, directive: string) {
    exists n :: 0 <= n < |Lines(h, field)| && NamesDirective(Lines(h, field)[n], directive)
  }

  /** Some line of the field is not empty. */
  ghost predicate Carries(h: Header, field: string) {
    exists n :: 0 <= n < |Lines(h, field)| && Lines(h, field)[n] != ""
  }

  /** What the documentation lets use the cache: the whole header counts. */
  ghost predicate RequestPermitted(verb: string, h: Header, opts: RequestOptions) {
    && verb in {"GET", "HEAD"}
    && (Carries(h, "Authorization") ==> opts.withAuthorization)
    && (Carries(h, "Cookie") ==> opts.withCookies)
    && !AnyLineNames(h, "Cache-Control", "no-store") && !AnyLineNames(h, "Cache-Control", "no-cache")
  }

  /** What the documentation lets into the cache. */
  ghost predicate ResponsePermitted(verb: string, status: int, h: Header, bodySize: int, opts: ResponseOptions) {
    && verb in {"GET", "HEAD"} && status in CACHEABLE_STATUSES
    && !AnyLineNames(h, "Cache-Control", "no-store")
    && (AnyLineNames(h, "Cache-Control", "private") || Carries(h, "Set-Cookie") ==> opts.cachePrivate)
    && (forall n, i :: 0 <= n < |Lines(h, "Vary")| && 0 <= i < |SplitComma(Lines(h, "Vary")[n])| ==>
          IsAcceptEncoding(SplitComma(Lines(h, "Vary")[n])[i]))
    && (opts.maxEntryBytes > 0 ==> bodySize <= opts.maxEntryBytes)
  }

  /** No field of h that the two tests read has more than most lines. */
  ghost predicate LinesAtMost(h: Header, most: nat) {
    forall field :: field in {"Authorization", "Cookie", "Cache-Control", "Set-Cookie", "Vary"} ==>
      |Lines(h, field)| <= most
  }

  lemma GetIsFirstLine(h: Header, field: string)
    ensures Get(h, field) == if Lines(h, field) == [] then "" else Lines(h, field)[0]
  {
    hide Canonical;
  }

  lemma NothingNamed(name: string)
    ensures !NamesDirective("", name)
  {
  }

  /** A first line decides for a field of one line; a longer field may say more. */
  lemma FirstLineDecides(h: Header, field: string, directive: string)
    ensures NamesDirective(Get(h, field), directive) ==> AnyLineNames(h, field, directive)
    ensures |Lines(h, field)| <= 1 ==> (AnyLineNames(h, field, directive) <==> NamesDirective(Get(h, field), directive))
    ensures Get(h, field) != "" ==> Carries(h, field)
    ensures |Lines(h, field)| <= 1 ==> (Carries(h, field) <==> Get(h, field) != "")
  {
    hide Lines, Get, NamesDirective;
    GetIsFirstLine(h, field);
    NothingNamed(directive);
  }

  /** The two tests let through what is permitted, by first lines, and maybe more. */
  lemma PermittedPasses(
    verb: string, req: Header, reqOpts: RequestOptions, status: int, resp: Header, bodySize: int, opts: ResponseOptions)
    ensures RequestPermitted(verb, req, reqOpts) ==> IsRequestCacheable(verb, req, reqOpts)
    ensures ResponsePermitted(verb, status, resp, bodySize, opts) ==>
              IsResponseCacheable(verb, status, resp, bodySize, opts)
    ensures LinesAtMost(req, 1) && IsRequestCacheable(verb, req, reqOpts) ==> RequestPermitted(verb, req, reqOpts)
    ensures LinesAtMost(resp, 1) && IsResponseCacheable(verb, status, resp, bodySize, opts) ==>
              ResponsePermitted(verb, status, resp, bodySize, opts)
  {
    hide Lines, Get, NamesDirective, AnyLineNames, Carries, IsRequestCacheable, IsResponseCacheable, SplitComma;
    hide IsAcceptEncoding, CACHEABLE_STATUSES;
    OnlyPermittedTrafficIsCached(verb, req, reqOpts, status, resp, bodySize, opts);
    FirstLineDecides(req, "Authorization", "");
    FirstLineDecides(req, "Cookie", "");
    FirstLineDecides(req, "Cache-Control", "no-store");
    FirstLineDecides(req, "Cache-Control", "no-cache");
    FirstLineDecides(resp, "Cache-Control", "no-store");
    FirstLineDecides(resp, "Cache-Control", "private");
    FirstLineDecides(resp, "Set-Cookie", "");
    GetIsFirstLine(resp, "Vary");
    EmptyAndStar();
  }

  /** A header with no-store on a second line. */
  function NoStoreSecond(): Header {
    map["Cache-Control" := ["max-age", "no-store"]]
  }

  lemma NoStoreSecondLines()
    ensures Lines(NoStoreSecond(), "Cache-Control") == ["max-age", "no-store"]
    ensures forall field :: field in {"Authorization", "Cookie", "Set-Cookie", "Vary"} ==>
              Lines(NoStoreSecond(), field) == []
  {
    assert Canonical("Cache-Control") == "Cache-Control";
    OtherNames();
    hide Canonical;
  }

  lemma OtherNames()
    ensures forall field :: field in {"Authorization", "Cookie", "Set-Cookie", "Vary"} ==>
              Canonical(field) != "Cache-Control"
  {
    assert |"Authorization"| == 13 && Canonical("Authorization")[0] == 'A';
    assert |"Cookie"| == 6 && |"Set-Cookie"| == 10 && |"Vary"| == 4 && |"Cache-Control"| == 13;
  }

  lemma OneDirective(line: string, name: string)
    requires line != "" && ',' !in line && '=' !in line && !IsSpace(line[0]) && !IsSpace(line[|line| - 1])
    ensures NamesDirective(line, name) <==> EqualFold(line, name)
  {
    NoSeparator(line, ',');
    TrimNone(line);
    BeforeNone(line, '=');
    hide Split, TrimSpace, Before, EqualFold;
    assert SplitComma(line) == [line];
    assert SplitComma(line)[0] == line && DirectiveName(line) == line;
  }

  lemma OtherLength(a: string, b: string)
    requires |a| != |b| || (a != "" && LowerChar(a[0]) != LowerChar(b[0]))
    ensures !EqualFold(a, b)
  {
    assert |ToLower(a)| == |a| && |ToLower(b)| == |b|;
    if a != "" && |a| == |b| {
      assert ToLower(a)[0] == LowerChar(a[0]) && ToLower(b)[0] == LowerChar(b[0]);
    }
  }

  lemma NoStoreIsNamed()
    ensures NamesDirective("no-store", "no-store")
    ensures forall name :: name in {"no-store", "no-cache", "private"} ==> !NamesDirective("max-age", name)
  {
    hide NamesDirective, EqualFold;
    OneDirective("no-store", "no-store");
    FoldItself("no-store");
    forall name | name in {"no-store", "no-cache", "private"} ensures !NamesDirective("max-age", name) {
      OneDirective("max-age", name);
      OtherLength("max-age", name);
    }
  }

  /** A response whose second Cache-Control line is no-store passes the filter, and a request
      may use the cache. */
  lemma SecondNoStoreUnseen(
    verb: string, reqOpts: RequestOptions, status: int, bodySize: int, opts: ResponseOptions)
    ensures AnyLineNames(NoStoreSecond(), "Cache-Control", "no-store")
    ensures verb in {"GET", "HEAD"} ==> IsRequestCacheable(verb, NoStoreSecond(), reqOpts)
    ensures verb in {"GET", "HEAD"} && status in CACHEABLE_STATUSES && !(0 < opts.maxEntryBytes < bodySize) ==>
              IsResponseCacheable(verb, status, NoStoreSecond(), bodySize, opts)
  {
    hide Lines, Get, NamesDirective, IsRequestCacheable, IsResponseCacheable, SplitComma, IsAcceptEncoding;
    hide CACHEABLE_STATUSES, NoStoreSecond;
    var h := NoStoreSecond();
    NoStoreSecondLines();
    NoStoreIsNamed();
    assert NamesDirective(Lines(h, "Cache-Control")[1], "no-store");
    OnlyPermittedTrafficIsCached(verb, h, reqOpts, status, h, bodySize, opts);
    GetIsFirstLine(h, "Authorization");
    GetIsFirstLine(h, "Cookie");
    GetIsFirstLine(h, "Cache-Control");
    GetIsFirstLine(h, "Set-Cookie");
    GetIsFirstLine(h, "Vary");
    EmptyAndStar();
  }

  lemma NoStoreSecondHasTwo(most: nat)
    requires most > 1
    ensures LinesAtMost(NoStoreSecond(), most)
  {
    hide Lines, NoStoreSecond;
    NoStoreSecondLines();
  }

  /**
   The request test lets through just what is permitted, for all headers of at most so many
   lines a field, exactly when that is one line, or the method lets nothing through.
   */
  lemma RequestTestIsExactIff(most: nat, verb: string, opts: RequestOptions)
    ensures (forall h: Header :: LinesAtMost(h, most) ==>
               (IsRequestCacheable(verb, h, opts) <==> RequestPermitted(verb, h, opts)))
            <==> most <= 1 || verb !in {"GET", "HEAD"}
  {
    hide Lines, IsRequestCacheable, AnyLineNames, Carries;
    var none := ResponseOptions(0, false);
    if most <= 1 || verb !in {"GET", "HEAD"} {
      forall h: Header | LinesAtMost(h, most)
        ensures IsRequestCacheable(verb, h, opts) <==> RequestPermitted(verb, h, opts)
      {
        PermittedPasses(verb, h, opts, 200, h, 0, none);
        OnlyPermittedTrafficIsCached(verb, h, opts, 200, h, 0, none);
      }
    } else {
      SecondNoStoreUnseen(verb, opts, 200, 0, none);
      NoStoreSecondHasTwo(most);
    }
  }

  /** The same for the response test; a status or a size may let nothing through too. */
  lemma ResponseTestIsExactIff(most: nat, verb: string, status: int, bodySize: int, opts: ResponseOptions)
    ensures (forall h: Header :: LinesAtMost(h, most) ==>
               (IsResponseCacheable(verb, status, h, bodySize, opts) <==>
                ResponsePermitted(verb, status, h, bodySize, opts)))
            <==> || most <= 1 || verb !in {"GET", "HEAD"} || status !in CACHEABLE_STATUSES
                 || 0 < opts.maxEntryBytes < bodySize
  {
    hide Lines, IsResponseCacheable, AnyLineNames, Carries, CACHEABLE_STATUSES;
    var none := RequestOptions(false, false);
    if || most <= 1 || verb !in {"GET", "HEAD"} || status !in CACHEABLE_STATUSES || 0 < opts.maxEntryBytes < bodySize {
      forall h: Header | LinesAtMost(h, most)
        ensures IsResponseCacheable(verb, status, h, bodySize, opts) <==>
                ResponsePermitted(verb, status, h, bodySize, opts)
      {
        PermittedPasses(verb, h, none, status, h, bodySize, opts);
        OnlyPermittedTrafficIsCached(verb, h, none, status, h, bodySize, opts);
      }
    } else {
      SecondNoStoreUnseen(verb, none, status, bodySize, opts);
      NoStoreSecondHasTwo(most);
    }
  }

  // ---------- freshness ----------

  const SECOND: int := 1_000_000_000

  /** A count of seconds as an int64 count of nanoseconds; the product wraps. */
  function Seconds(n: int): int { WrapInt64(n * SECOND) }

  /** The value of a usable max-age directive. */
  function MaxAge(directive: string): Option<int> {
    var d := TrimSpace(directive);
    if HasPrefix(ToLower(d), "max-age=") then
      match Atoi(d[|"max-age="|..])
      case Some(n) => if n >= 0 then Some(n) else None
      case None => None
    else None
  }

  function FirstMaxAge(ds: seq<string>): Option<int> {
    if ds == [] then None
    else if MaxAge(ds[0]).Some? then MaxAge(ds[0])
    else FirstMaxAge(ds[1..])
  }

  /** The suffix of the last path element from its last dot, or "". */
  function Ext(path: string): string {
    if path == "" || path[|path| - 1] == '/' then ""
    else if path[|path| - 1] == '.' then "."
    else
      var front := Ext(path[..|path| - 1]);
      if front == "" then "" else front + [path[|path| - 1]]
  }

  /** Every dot of the path has a slash somewhere after it. */
  ghost predicate NoDotInLast(path: string) {
    forall i :: 0 <= i < |path| && path[i] == '.' ==> exists j :: i < j < |path| && path[j] == '/'
  }

  /** The extension starts at the last dot after the last slash; without one it is "". */
  lemma {:induction false} ExtIsFromLastDot(path: string)
    ensures HasSuffix(path, Ext(path))
    ensures Ext(path) != "" ==> Ext(path)[0] == '.' && '.' !in Ext(path)[1..] && '/' !in Ext(path)
    ensures Ext(path) == "" ==> NoDotInLast(path)
  {
    hide NoDotInLast, HasSuffix;
    if path == "" {
      EmptyPath();
    } else {
      var front, c, e := path[..|path| - 1], path[|path| - 1], Ext(path[..|path| - 1]);
      assert path == front + [c];
      ExtIsFromLastDot(front);
      if c == '/' {
        SlashAtEnd(front);
      } else if c == '.' {
        EmptySuffix(front);
        SuffixGrows(front, c, "");
      } else if e == "" {
        StillNoDot(front, c);
      } else {
        SuffixGrows(front, c, e);
        assert (e + [c])[1..] == e[1..] + [c];
      }
    }
  }

  lemma EmptyPath()
    ensures NoDotInLast("") && HasSuffix("", "")
  {
  }

  lemma EmptySuffix(p: string)
    ensures HasSuffix(p, "")
  {
  }

  lemma SlashAtEnd(front: string)
    ensures NoDotInLast(front + ['/']) && HasSuffix(front + ['/'], "")
  {
    assert (front + ['/'])[|front|] == '/';
  }

  lemma StillNoDot(front: string, c: char)
    requires NoDotInLast(front) && c != '.'
    ensures NoDotInLast(front + [c]) && HasSuffix(front + [c], "")
  {
    var path := front + [c];
    forall i | 0 <= i < |path| && path[i] == '.' ensures exists j :: i < j < |path| && path[j] == '/' {
      assert front[i] == '.';
      var j :| i < j < |front| && front[j] == '/';
      assert path[j] == '/';
    }
  }

  lemma SuffixGrows(front: string, c: char, e: string)
    requires HasSuffix(front, e)
    ensures HasSuffix(front + [c], e + [c])
  {
    assert (front + [c])[|front| - |e|..] == front[|front| - |e|..] + [c];
  }

  predicate IsStatic(url: string) {
    ToLower(Ext(Before(url, '?'))) in STATIC_EXTENSIONS
  }

  /** parse reads an HTTP date; the difference of two times saturates at int64. */
  function TTLFor(h: Header, url: string, defaultTTL: int, now: int, parse: string -> Option<int>): int {
    var age := FirstMaxAge(SplitComma(Get(h, "Cache-Control")));
    if age.Some? then Seconds(age.value)
    else
      var exp := Get(h, "Expires");
      if exp != "" && parse(exp).Some? && parse(exp).value > now then Min(parse(exp).value - now, MAX_INT64)
      else if defaultTTL > 0 && IsStatic(url) then Seconds(defaultTTL)
      else 0
  }

  lemma {:induction false} FirstMaxAgeIs(ds: seq<string>)
    ensures FirstMaxAge(ds).None? <==> forall i :: 0 <= i < |ds| ==> MaxAge(ds[i]).None?
    ensures FirstMaxAge(ds).Some? ==>
              exists i ::
                0 <= i < |ds| && MaxAge(ds[i]) == FirstMaxAge(ds) && forall j :: 0 <= j < i ==> MaxAge(ds[j]).None?
  {
    if ds != [] && MaxAge(ds[0]).None? {
      FirstMaxAgeIs(ds[1..]);
      assert forall i :: 0 < i < |ds| ==> ds[i] == ds[1..][i - 1];
      if FirstMaxAge(ds).Some? {
        var i :| 0 <= i < |ds[1..]| && MaxAge(ds[1..][i]) == FirstMaxAge(ds) &&
                 forall j :: 0 <= j < i ==> MaxAge(ds[1..][j]).None?;
        assert MaxAge(ds[i + 1]) == FirstMaxAge(ds);
      }
    }
  }

  /** A max-age directive, in any letter case, says the decimal number after it. */
  lemma MaxAgeOfDecimal(name: string, n: nat)
    requires EqualFold(name, "max-age=")
    ensures MaxAge(name + Decimal(n)) == if n <= MAX_INT64 then Some(n) else None
  {
    var d, digits := name + Decimal(n), Decimal(n);
    assert |ToLower(name)| == |ToLower("max-age=")| == 8;
    assert IsDigit(digits[|digits| - 1]);
    assert d[|d| - 1] == digits[|digits| - 1];
    assert ToLower(name)[0] == LowerChar(name[0]) && ToLower("max-age=")[0] == 'm';
    TrimNone(d);
    assert ToLower(d)[..8] == ToLower(name);
    assert ToLower("max-age=") == "max-age=";
    assert d[8..] == digits;
    AtoiOfDecimal(n);
  }

  /** Seconds does not overflow exactly up to 9223372036, and never gives more than it should. */
  lemma SecondsExactIff(n: nat)
    ensures Seconds(n) == n * SECOND <==> n <= 9223372036
    ensures Seconds(n) <= n * SECOND
    ensures n <= 9223372036 ==> Seconds(n) >= 0
  {
  }

  lemma {:induction false} DecimalHasNoComma(n: nat)
    ensures ',' !in Decimal(n)
  {
    if n >= 10 { DecimalHasNoComma(n / 10); }
  }

  /** The header with just this max-age. */
  function MaxAgeHeader(n: nat): Header {
    map["Cache-Control" := ["max-age=" + Decimal(n)]]
  }

  lemma MaxAgeLine(n: nat)
    ensures Get(MaxAgeHeader(n), "Cache-Control") == "max-age=" + Decimal(n)
  {
    assert Canonical("Cache-Control") == "Cache-Control";
    hide Canonical, Decimal;
  }

  /** What such a header is worth: its seconds as far as int64 goes, whatever the URL. */
  lemma TTLOfMaxAge(n: nat, url: string, now: int, parse: string -> Option<int>)
    requires n <= MAX_INT64
    ensures TTLFor(MaxAgeHeader(n), url, 0, now, parse) == Seconds(n)
  {
    var line := "max-age=" + Decimal(n);
    MaxAgeLine(n);
    FoldItself("max-age=");
    hide MaxAgeHeader, Canonical, Get, Decimal, MaxAge, Seconds, EqualFold;
    DecimalHasNoComma(n);
    NoSeparator(line, ',');
    MaxAgeOfDecimal("max-age=", n);
    assert SplitComma(line) == [line];
  }

  lemma FoldItself(s: string)
    ensures EqualFold(s, s)
  {
  }

  /** Two max-age headers just over the bound: a lifetime that is negative, and one under a second. */
  lemma MaxAgeOverflows(url: string, now: int, parse: string -> Option<int>)
    ensures TTLFor(MaxAgeHeader(9223372037), url, 0, now, parse) < 0
    ensures 0 < TTLFor(MaxAgeHeader(18446744074), url, 0, now, parse) < SECOND
  {
    hide TTLFor, MaxAgeHeader;
    TTLOfMaxAge(9223372037, url, now, parse);
    TTLOfMaxAge(18446744074, url, now, parse);
  }

  /**
   A response is never kept longer than the first usable max-age allows, nor past its
   Expires date when that is what decides; past the exact range of max-age it can only
   be kept for less time, or not at all.
   */
  lemma NeverFreshTooLong(h: Header, url: string, defaultTTL: int, now: int, parse: string -> Option<int>)
    ensures var ds, ttl := SplitComma(Get(h, "Cache-Control")), TTLFor(h, url, defaultTTL, now, parse);
            && (forall i :: 0 <= i < |ds| && MaxAge(ds[i]).Some? && (forall j :: 0 <= j < i ==> MaxAge(ds[j]).None?) ==>
                 && ttl <= MaxAge(ds[i]).value * SECOND
                 && (ttl == MaxAge(ds[i]).value * SECOND <==> MaxAge(ds[i]).value <= 9223372036))
            && ((forall i :: 0 <= i < |ds| ==> MaxAge(ds[i]).None?) ==>
                 var exp := Get(h, "Expires");
                 if exp != "" && parse(exp).Some? && parse(exp).value > now then
                   0 < ttl <= parse(exp).value - now &&
                   (ttl == parse(exp).value - now <==> parse(exp).value - now <= MAX_INT64)
                 else if defaultTTL > 0 && IsStatic(url) then
                   ttl <= defaultTTL * SECOND && (ttl == defaultTTL * SECOND <==> defaultTTL <= 9223372036)
                 else ttl == 0)
  {
    var ds := SplitComma(Get(h, "Cache-Control"));
    FirstMaxAgeIs(ds);
    if FirstMaxAge(ds).Some? { SecondsExactIff(FirstMaxAge(ds).value); }
    if defaultTTL > 0 { SecondsExactIff(defaultTTL); }
    forall i | 0 <= i < |ds| && MaxAge(ds[i]).Some? && forall j :: 0 <= j < i ==> MaxAge(ds[j]).None?
      ensures MaxAge(ds[i]) == FirstMaxAge(ds)
    {
      var k :| 0 <= k < |ds| && MaxAge(ds[k]) == FirstMaxAge(ds) && forall j :: 0 <= j < k ==> MaxAge(ds[j]).None?;
      assert i == k;
    }
  }
}
