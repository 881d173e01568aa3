/** The key a request is stored under, and what it says of the request's header. */
module CacheKeys {
  import opened Text
  import opened HttpHeader
  import opened CachePolicy

  const NUL: char := '\0'

  function BuildKey(verb: string, url: string, h: Header): string {
    verb + [NUL] + url + [NUL] + Get(h, "Accept-Encoding")
  }

  predicate NulFree(s: string) { NUL !in s }

  /** A string is determined by what stands before its first NUL and what stands after. */
  lemma FirstNul(a: string, x: string, b: string, y: string)
    requires NulFree(a) && NulFree(b)
    requires a + [NUL] + x == b + [NUL] + y
    ensures a == b && x == y
  {
    var s := a + [NUL] + x;
    assert forall i :: 0 <= i < |a| ==> s[i] == a[i];
    assert forall i :: 0 <= i < |b| ==> s[i] == b[i];
    assert s[|a|] == NUL && s[|b|] == NUL;
    assert |a| == |b|;
    assert a == s[..|a|] && x == s[|a| + 1..];
  }

  /** A NUL and the same text w end the one URL and start the other header value. */
  ghost predicate Shifted(u1: string, a1: string, u2: string, a2: string) {
    exists w: string :: u2 == u1 + [NUL] + w && a1 == w + [NUL] + a2
  }

  /** Two texts with a NUL added are the same when the parts are, or one part is shifted. */
  lemma SplitAtNul(u1: string, a1: string, u2: string, a2: string)
    requires |u1| <= |u2|
    ensures u1 + [NUL] + a1 == u2 + [NUL] + a2 <==> (u1 == u2 && a1 == a2) || Shifted(u1, a1, u2, a2)
  {
    var s, t := u1 + [NUL] + a1, u2 + [NUL] + a2;
    if s == t {
      assert u1 == s[..|u1|] == t[..|u1|] == u2[..|u1|];
      assert a1 == s[|u1| + 1..] == t[|u1| + 1..];
      if |u1| < |u2| {
        var w := u2[|u1| + 1..];
        assert s[|u1|] == NUL == t[|u1|] == u2[|u1|];
        assert u2 == u1 + [NUL] + w;
        assert a1 == w + [NUL] + a2;
      } else {
        assert a2 == t[|u2| + 1..];
      }
    }
    if Shifted(u1, a1, u2, a2) {
      var w: string :| u2 == u1 + [NUL] + w && a1 == w + [NUL] + a2;
      assert s == u1 + [NUL] + w + [NUL] + a2;
    }
  }

  /** Exactly when two requests have the same key, for methods without a NUL. */
  lemma SameKeyIff(v1: string, u1: string, h1: Header, v2: string, u2: string, h2: Header)
    requires NulFree(v1) && NulFree(v2)
    ensures var a1, a2 := Get(h1, "Accept-Encoding"), Get(h2, "Accept-Encoding");
            BuildKey(v1, u1, h1) == BuildKey(v2, u2, h2) <==>
            v1 == v2 && ((u1 == u2 && a1 == a2) || Shifted(u1, a1, u2, a2) || Shifted(u2, a2, u1, a1))
  {
    hide Get, Shifted;
    var a1, a2 := Get(h1, "Accept-Encoding"), Get(h2, "Accept-Encoding");
    var r1, r2 := u1 + [NUL] + a1, u2 + [NUL] + a2;
    assert BuildKey(v1, u1, h1) == v1 + [NUL] + r1 && BuildKey(v2, u2, h2) == v2 + [NUL] + r2;
    if BuildKey(v1, u1, h1) == BuildKey(v2, u2, h2) { FirstNul(v1, r1, v2, r2); }
    if |u1| <= |u2| { SplitAtNul(u1, a1, u2, a2); }
    if |u2| <= |u1| { SplitAtNul(u2, a2, u1, a1); }
    ShiftedLonger(u1, a1, u2, a2);
    ShiftedLonger(u2, a2, u1, a1);
  }

  lemma ShiftedLonger(u1: string, a1: string, u2: string, a2: string)
    ensures Shifted(u1, a1, u2, a2) ==> |u1| < |u2| && !NulFree(u2) && !NulFree(a1)
  {
    if Shifted(u1, a1, u2, a2) {
      var w: string :| u2 == u1 + [NUL] + w && a1 == w + [NUL] + a2;
      assert u2[|u1|] == NUL && a1[|w|] == NUL;
    }
  }

  /** Not both the URL of the one request and the header value of the other have a NUL. */
  predicate Separable(u1: string, h1: Header, u2: string, h2: Header) {
    && (NulFree(u1) || NulFree(Get(h2, "Accept-Encoding")))
    && (NulFree(u2) || NulFree(Get(h1, "Accept-Encoding")))
  }

  /** Then keys are equal only for the same method, URL and first Accept-Encoding. No key is empty. */
  lemma KeyInjective(v1: string, u1: string, h1: Header, v2: string, u2: string, h2: Header)
    requires NulFree(v1) && NulFree(v2) && Separable(u1, h1, u2, h2)
    ensures BuildKey(v1, u1, h1) != ""
    ensures BuildKey(v1, u1, h1) == BuildKey(v2, u2, h2) <==>
            v1 == v2 && u1 == u2 && Get(h1, "Accept-Encoding") == Get(h2, "Accept-Encoding")
  {
    hide Get, Shifted;
    var a1, a2 := Get(h1, "Accept-Encoding"), Get(h2, "Accept-Encoding");
    SameKeyIff(v1, u1, h1, v2, u2, h2);
    ShiftedLonger(u1, a1, u2, a2);
    ShiftedLonger(u2, a2, u1, a1);
  }

  /** A request shares its key with no request for anything else exactly when neither its
      URL nor its first Accept-Encoding has a NUL. */
  lemma KeyIsOwnIff(verb: string, url: string, h: Header)
    requires NulFree(verb)
    ensures (forall v: string, u: string, g: Header :: NulFree(v) && BuildKey(v, u, g) == BuildKey(verb, url, h) ==>
               v == verb && u == url && Get(g, "Accept-Encoding") == Get(h, "Accept-Encoding"))
            <==> NulFree(url) && NulFree(Get(h, "Accept-Encoding"))
  {
    hide Get, BuildKey;
    if NulFree(url) && NulFree(Get(h, "Accept-Encoding")) {
      forall v: string, u: string, g: Header | NulFree(v) && BuildKey(v, u, g) == BuildKey(verb, url, h)
        ensures v == verb && u == url && Get(g, "Accept-Encoding") == Get(h, "Accept-Encoding")
      {
        KeyInjective(v, u, g, verb, url, h);
      }
    } else {
      var u, g := SharesKey(verb, url, h);
      assert BuildKey(verb, u, g) == BuildKey(verb, url, h);
    }
  }

  lemma SharesKey(verb: string, url: string, h: Header) returns (u: string, g: Header)
    requires NulFree(verb) && !(NulFree(url) && NulFree(Get(h, "Accept-Encoding")))
    ensures BuildKey(verb, u, g) == BuildKey(verb, url, h) && u != url
  {
    var a := Get(h, "Accept-Encoding");
    hide Get, BuildKey;
    if !NulFree(url) {
      var i :| 0 <= i < |url| && url[i] == NUL;
      var w := url[i + 1..];
      u, g := url[..i], map[Canonical("Accept-Encoding") := [w + [NUL] + a]];
      GetOfOne("Accept-Encoding", w + [NUL] + a);
      assert url == u + [NUL] + w;
      assert Shifted(u, w + [NUL] + a, url, a);
    } else {
      var i :| 0 <= i < |a| && a[i] == NUL;
      var w := a[..i];
      u, g := url + [NUL] + w, map[Canonical("Accept-Encoding") := [a[i + 1..]]];
      GetOfOne("Accept-Encoding", a[i + 1..]);
      assert a == w + [NUL] + a[i + 1..];
      assert Shifted(url, a, u, a[i + 1..]);
    }
    SameKeyIff(verb, u, g, verb, url, h);
  }

  lemma GetOfOne(name: string, value: string)
    ensures Get(map[Canonical(name) := [value]], name) == value
  {
  }

  // ---------- Vary ----------

  /** The two requests agree, line for line, on every field that one Vary line selects. */
  ghost predicate AgreeOn(line: string, h1: Header, h2: Header) {
    forall i :: 0 <= i < |SplitComma(line)| ==>
      Lines(h1, TrimSpace(SplitComma(line)[i])) == Lines(h2, TrimSpace(SplitComma(line)[i]))
  }

  /** The Accept-Encoding lines of a request, of which the key holds the first. */
  function Encodings(h: Header): seq<string> { Lines(h, "Accept-Encoding") }

  lemma AcceptEncodingField(field: string)
    requires IsAcceptEncoding(field)
    ensures forall h: Header :: Lines(h, TrimSpace(field)) == Encodings(h)
  {
    CanonicalIffFold("Accept-Encoding", TrimSpace(field));
    hide Canonical, TrimSpace;
  }

  /** On a line that names Accept-Encoding only, agreeing is having the same lines of it. */
  lemma AcceptEncodingLineAgrees(line: string, h1: Header, h2: Header)
    requires forall i :: 0 <= i < |SplitComma(line)| ==> IsAcceptEncoding(SplitComma(line)[i])
    ensures AgreeOn(line, h1, h2) <==> line == "" || Encodings(h1) == Encodings(h2)
  {
    hide Split, TrimSpace, Lines, Encodings, IsAcceptEncoding;
    forall i | 0 <= i < |SplitComma(line)|
      ensures Lines(h1, TrimSpace(SplitComma(line)[i])) == Encodings(h1)
      ensures Lines(h2, TrimSpace(SplitComma(line)[i])) == Encodings(h2)
    {
      AcceptEncodingField(SplitComma(line)[i]);
    }
    if line != "" { assert IsAcceptEncoding(SplitComma(line)[0]); }
  }

  /** Requests for the same target have equal keys when their first lines are equal. */
  lemma SameTargetKey(verb: string, url: string, h1: Header, h2: Header)
    ensures BuildKey(verb, url, h1) == BuildKey(verb, url, h2) <==>
            Get(h1, "Accept-Encoding") == Get(h2, "Accept-Encoding")
  {
    hide Get;
    var p, a1, a2 := verb + [NUL] + url + [NUL], Get(h1, "Accept-Encoding"), Get(h2, "Accept-Encoding");
    assert BuildKey(verb, url, h1) == p + a1 && BuildKey(verb, url, h2) == p + a2;
    assert (p + a1)[|p|..] == a1 && (p + a2)[|p|..] == a2;
  }

  /**
   Once a response passed the filter, requests with equal keys agree on what its first Vary
   line selects exactly when it selects nothing or all their Accept-Encoding lines are
   equal; which they are when both have one line, or both none.
   */
  lemma SameKeyAgreesOnVary(
    status: int, resp: Header, bodySize: int, opts: ResponseOptions,
    v1: string, u1: string, h1: Header, v2: string, u2: string, h2: Header)
    requires IsResponseCacheable(v1, status, resp, bodySize, opts)
    requires NulFree(v1) && NulFree(v2) && Separable(u1, h1, u2, h2)
    requires BuildKey(v1, u1, h1) == BuildKey(v2, u2, h2)
    ensures AgreeOn(Get(resp, "Vary"), h1, h2) <==> Get(resp, "Vary") == "" || Encodings(h1) == Encodings(h2)
    ensures |Encodings(h1)| == |Encodings(h2)| <= 1 ==> AgreeOn(Get(resp, "Vary"), h1, h2)
  {
    KeyInjective(v1, u1, h1, v2, u2, h2);
    OnlyAcceptEncodingMeans(SplitComma(Get(resp, "Vary")));
    AcceptEncodingLineAgrees(Get(resp, "Vary"), h1, h2);
    OneLineEach(h1, h2);
  }

  lemma OneLineEach(h1: Header, h2: Header)
    requires Get(h1, "Accept-Encoding") == Get(h2, "Accept-Encoding")
    ensures |Encodings(h1)| == |Encodings(h2)| <= 1 ==> Encodings(h1) == Encodings(h2)
  {
    hide Canonical;
  }

  /**
   Which requests the key tells apart by Accept-Encoding: with the numbers of lines it may
   have, keys of the same target are equal only for equal lines exactly when every request
   has none or every request has one.
   */
  lemma KeyHoldsEncodingsIff(verb: string, url: string, counts: set<nat>)
    ensures (forall h1: Header, h2: Header ::
               |Encodings(h1)| in counts && |Encodings(h2)| in counts &&
               BuildKey(verb, url, h1) == BuildKey(verb, url, h2) ==>
                 Encodings(h1) == Encodings(h2))
            <==> counts <= {0} || counts <= {1}
  {
    if counts <= {0} || counts <= {1} {
      forall h1: Header, h2: Header |
        |Encodings(h1)| in counts && |Encodings(h2)| in counts && BuildKey(verb, url, h1) == BuildKey(verb, url, h2)
        ensures Encodings(h1) == Encodings(h2)
      {
        SameTargetKey(verb, url, h1, h2);
        OneLineEach(h1, h2);
      }
    } else {
      var h1, h2 := SameKeyOtherLines(counts);
      SameTargetKey(verb, url, h1, h2);
    }
  }

  /** The header with these Accept-Encoding lines. */
  function Accepting(lines: seq<string>): (h: Header) {
    map["Accept-Encoding" := lines]
  }

  lemma EncodingsOf(lines: seq<string>)
    ensures Encodings(Accepting(lines)) == lines
    ensures Get(Accepting(lines), "Accept-Encoding") == if lines == [] then "" else lines[0]
  {
    assert Canonical("Accept-Encoding") == "Accept-Encoding";
  }

  /** Without that, two requests that share a first line and differ after it, or an empty
      field and an absent one. */
  lemma SameKeyOtherLines(counts: set<nat>) returns (h1: Header, h2: Header)
    requires !(counts <= {0}) && !(counts <= {1})
    ensures |Encodings(h1)| in counts && |Encodings(h2)| in counts
    ensures Get(h1, "Accept-Encoding") == Get(h2, "Accept-Encoding") && Encodings(h1) != Encodings(h2)
  {
    var a :| a in counts && a != 0;
    var b :| b in counts && b != 1;
    var n := if a > 1 then a else b;
    hide Encodings, Get, Accepting;
    var x, y := seq(n, i => ""), seq(n, i => if i == 0 then "" else "br");
    if n == 0 {
      EncodingsOf([""]);
      EncodingsOf([]);
      h1, h2 := Accepting([""]), Accepting([]);
    } else {
      EncodingsOf(x);
      EncodingsOf(y);
      assert x[1] != y[1] by { assert |x[1]| == 0 && |y[1]| == 2; }
      h1, h2 := Accepting(x), Accepting(y);
    }
  }

  /** A client that takes gzip only shares its key with one that takes br too, on a second line. */
  lemma SecondEncodingLineUnseen(verb: string, url: string)
    ensures var h1, h2 := Accepting(["gzip"]), Accepting(["gzip", "br"]);
            BuildKey(verb, url, h1) == BuildKey(verb, url, h2) && !AgreeOn("Accept-Encoding", h1, h2)
  {
    hide AgreeOn, SplitComma, Encodings, Get, Accepting, IsAcceptEncoding, BuildKey;
    AcceptEncodingAlone();
    EncodingsOf(["gzip"]);
    EncodingsOf(["gzip", "br"]);
    AcceptEncodingLineAgrees("Accept-Encoding", Accepting(["gzip"]), Accepting(["gzip", "br"]));
    SameTargetKey(verb, url, Accepting(["gzip"]), Accepting(["gzip", "br"]));
  }

  lemma AcceptEncodingAlone()
    ensures SplitComma("Accept-Encoding") == ["Accept-Encoding"] && IsAcceptEncoding("Accept-Encoding")
  {
    hide Split, TrimSpace, EqualFold;
    AcceptEncodingWhole();
    NoSeparator("Accept-Encoding", ',');
    FoldItself("Accept-Encoding");
  }

  lemma AcceptEncodingWhole()
    ensures TrimSpace("Accept-Encoding") == "Accept-Encoding"
  {
    var s := "Accept-Encoding";
    assert |s| == 15 && s[0] == 'A' && s[14] == 'g';
    hide TrimSpace;
    TrimNone(s);
  }

  /**
   The filter reads the first Vary line only, and the key the first Accept-Encoding line.
   Over all lines of both, requests for one target with equal keys agree on all that a
   response's Vary lines select exactly when those lines are empty, or every field of them
   names Accept-Encoding and every request has one line of it, or every request none.
   */
  lemma KeyCoversEveryVaryLineIff(verb: string, url: string, lines: seq<string>, counts: set<nat>)
    requires counts != {}
    ensures (forall h1: Header, h2: Header, n: nat ::
               n < |lines| && |Encodings(h1)| in counts && |Encodings(h2)| in counts &&
               BuildKey(verb, url, h1) == BuildKey(verb, url, h2) ==>
                 AgreeOn(lines[n], h1, h2))
            <==> (forall n :: 0 <= n < |lines| ==> lines[n] == "")
                 || (&& (forall n, i :: 0 <= n < |lines| && 0 <= i < |SplitComma(lines[n])| ==>
                           IsAcceptEncoding(SplitComma(lines[n])[i]))
                     && (counts <= {0} || counts <= {1}))
  {
    hide BuildKey, AgreeOn, SplitComma, Encodings, IsAcceptEncoding;
    if n, i :| 0 <= n < |lines| && 0 <= i < |SplitComma(lines[n])| && !IsAcceptEncoding(SplitComma(lines[n])[i]) {
      var c :| c in counts;
      var h1, h2 := OtherFieldTellsApart(lines[n], i, c);
      SameTargetKey(verb, url, h1, h2);
      FieldsOfLine(lines[n]);
    } else if !(counts <= {0} || counts <= {1}) && exists n :: 0 <= n < |lines| && lines[n] != "" {
      var n :| 0 <= n < |lines| && lines[n] != "";
      var h1, h2 := SameKeyOtherLines(counts);
      SameTargetKey(verb, url, h1, h2);
      AcceptEncodingLineAgrees(lines[n], h1, h2);
    } else {
      forall h1: Header, h2: Header, n: nat |
        && n < |lines| && |Encodings(h1)| in counts && |Encodings(h2)| in counts
        && BuildKey(verb, url, h1) == BuildKey(verb, url, h2)
        ensures AgreeOn(lines[n], h1, h2)
      {
        SameTargetKey(verb, url, h1, h2);
        OneLineEach(h1, h2);
        AcceptEncodingLineAgrees(lines[n], h1, h2);
      }
    }
  }

  lemma FieldsOfLine(line: string)
    ensures SplitComma(line) == [] <==> line == ""
  {
  }

  /** A field that is not Accept-Encoding can differ between requests with the same key. */
  lemma OtherFieldTellsApart(line: string, i: nat, count: nat) returns (h1: Header, h2: Header)
    requires i < |SplitComma(line)| && !IsAcceptEncoding(SplitComma(line)[i])
    ensures |Encodings(h1)| == |Encodings(h2)| == count
    ensures Get(h1, "Accept-Encoding") == Get(h2, "Accept-Encoding") && !AgreeOn(line, h1, h2)
  {
    hide SplitComma, TrimSpace, Canonical, IsAcceptEncoding;
    var f, e := TrimSpace(SplitComma(line)[i]), Canonical("Accept-Encoding");
    OtherCanonical(SplitComma(line)[i]);
    h2 := map[e := seq(count, i => "")];
    h1 := h2[Canonical(f) := ["x"]];
    assert Lines(h1, f) == ["x"] && Lines(h2, f) == [];
  }

  lemma OtherCanonical(field: string)
    requires !IsAcceptEncoding(field)
    ensures Canonical(TrimSpace(field)) != Canonical("Accept-Encoding")
  {
    CanonicalIffFold("Accept-Encoding", TrimSpace(field));
    hide Canonical, TrimSpace;
  }

  lemma AcceptEncodingPasses(h: Header, opts: ResponseOptions, vary: string)
    requires Get(h, "Vary") == vary && EqualFold(vary, "Accept-Encoding")
    requires vary != "" && !IsSpace(vary[0]) && !IsSpace(vary[|vary| - 1]) && ',' !in vary
    requires Get(h, "Cache-Control") == "" && Get(h, "Set-Cookie") == ""
    ensures IsResponseCacheable("GET", 200, h, 0, opts)
  {
    assert |ToLower(vary)| == |ToLower("Accept-Encoding")|;
    NoSeparator(vary, ',');
    TrimNone(vary);
    hide Split, TrimSpace, EqualFold, Canonical, OnlyAcceptEncoding;
    assert SplitComma(vary) == [vary];
    OnlyAcceptEncodingMeans([vary]);
  }

  lemma FieldLengths()
    ensures Canonical("Vary") == "Vary"
    ensures |Canonical("Cache-Control")| == 13 && |Canonical("Set-Cookie")| == 10 && |"Vary"| == 4
  {
  }

  /** A response whose second Vary line names User-Agent passes the filter. */
  lemma SecondVaryLineUnseen(opts: ResponseOptions)
    ensures IsResponseCacheable("GET", 200, map["Vary" := ["Accept-Encoding", "User-Agent"]], 0, opts)
  {
    hide Canonical, IsResponseCacheable, EqualFold;
    var h: Header := map["Vary" := ["Accept-Encoding", "User-Agent"]];
    FieldLengths();
    assert EqualFold("Accept-Encoding", "Accept-Encoding") by { FoldItself("Accept-Encoding"); }
    AcceptEncodingPasses(h, opts, "Accept-Encoding");
  }
}
