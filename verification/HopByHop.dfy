/** Building the upstream header: copy the request's fields, then strip the hop-by-hop ones. */
module HopByHop {
  import opened Basics
  import opened Text
  import opened Directives
  import opened HttpHeader

  const HOP_BY_HOP: seq<string> := [
    "Connection", "Keep-Alive", "Proxy-Authenticate", "Proxy-Authorization", "Proxy-Connection",
    "TE", "Trailer", "Trailers", "Transfer-Encoding", "Upgrade"]

  /** The field names one Connection line lists. */
  function Options(line: string): seq<string> {
    if line == "" then [] else Trimmed(Split(line, ','))
  }

  function Trimmed(parts: seq<string>): (r: seq<string>)
    ensures |r| == |parts| && forall i :: 0 <= i < |r| ==> r[i] == TrimSpace(parts[i])
  {
    seq(|parts|, i requires 0 <= i < |parts| => TrimSpace(parts[i]))
  }

  /** h without the fields that names name. */
  function Deleted(h: Header, names: seq<string>): Header {
    h - set n | n in names :: Canonical(n)
  }

  function Stripped(h: Header): Header {
    Deleted(Deleted(h, Options(Get(h, "Connection"))), HOP_BY_HOP)
  }

  /** Deletes the named fields one after the other. */
  method DeleteAll(h: HeaderMap, names: seq<string>)
    modifies h
    ensures h.m == Deleted(old(h.m), names)
  {
    for i := 0 to |names|
      invariant h.m == Deleted(old(h.m), names[..i])
    {
      DeletedOneMore(old(h.m), names[..i], names[i]);
      assert names[..i + 1] == names[..i] + [names[i]];
      h.Del(names[i]);
    }
    assert names[..|names|] == names;
  }

  lemma DeletedOneMore(h: Header, names: seq<string>, n: string)
    ensures Deleted(h, names + [n]) == Deleted(h, names) - {Canonical(n)}
  {
    hide Canonical;
    assert (set x | x in names + [n] :: Canonical(x)) == (set x | x in names :: Canonical(x)) + {Canonical(n)};
  }

  /** The upstream header for the fields of a relayed request. */
  method UpstreamHeader(fields: Header) returns (h: HeaderMap, ghost ks: seq<string>)
    ensures IsWalk(fields, ks)
    ensures h.m == Stripped(AddedInOrder(fields, ks))
    ensures TokenNames(fields) ==>
              forall k :: k in h.m ==>
                ToLower(k) !in {"connection", "keep-alive", "proxy-authenticate", "proxy-authorization",
                                "proxy-connection", "te", "trailer", "trailers", "transfer-encoding", "upgrade"}
    ensures TokenNames(fields) && FoldDistinct(fields) ==>
              && (forall j, conn ::
                    && j in fields && fields[j] != [] && AreItems(conn) && IsConnectionLine(fields, LineOf(conn))
                    && ToLower(j) !in {"connection", "keep-alive", "proxy-authenticate", "proxy-authorization",
                                       "proxy-connection", "te", "trailer", "trailers", "transfer-encoding",
                                       "upgrade"} ==>
                      if ListedIn(conn, j) then Canonical(j) !in h.m
                      else Canonical(j) in h.m && h.m[Canonical(j)] == fields[j])
              && (forall k :: k in h.m ==> HasField(fields, k))
  {
    hide Canonical, AddedInOrder, NoDup, HOP_BY_HOP, TokenNames, FoldDistinct, IsConnectionLine, ListedIn, AreItems;
    h := new HeaderMap();
    ks := h.AddAll(fields);
    var conn := Get(h.m, "Connection");
    if conn != "" {
      DeleteAll(h, Trimmed(Split(conn, ',')));
    } else {
      assert Deleted(h.m, []) == h.m;
    }
    DeleteAll(h, HOP_BY_HOP);
    StrippedOnText(fields, ks);
  }

  // ---------- what stripping leaves ----------

  /** Field names as tokens in canonical form. */
  ghost predicate CanonicalTokens(h: Header) {
    forall k :: k in h ==> IsToken(k) && Canonical(k) == k
  }

  /** Which the header built from any fields with token names satisfies. */
  lemma {:induction false} AddedAreCanonicalTokens(fields: Header, ks: seq<string>)
    requires (forall k :: k in ks ==> k in fields) && (forall k :: k in fields ==> IsToken(k))
    ensures CanonicalTokens(AddedInOrder(fields, ks))
  {
    if ks != [] {
      AddedAreCanonicalTokens(fields, ks[..|ks| - 1]);
      var k := ks[|ks| - 1];
      CanonicalIdempotent(k);
      CanonicalFolds(k);
      TokenOfLower(k, Canonical(k));
    }
  }

  /** Some name of the list is k, letter case aside. */
  ghost predicate Names(names: seq<string>, k: string) {
    exists n :: n in names && EqualFold(n, k)
  }

  lemma DeletedIff(h: Header, names: seq<string>, k: string)
    requires CanonicalTokens(h)
    ensures k in Deleted(h, names) <==> k in h && !Names(names, k)
    ensures k in Deleted(h, names) ==> Deleted(h, names)[k] == h[k]
  {
    if k in h {
      forall n | n in names ensures Canonical(n) == k <==> EqualFold(n, k) {
        CanonicalIffFold(k, n);
      }
      hide Canonical;
    }
  }

  /**
   Exactly the fields on the fixed list and those the first Connection line names are
   gone, whatever their letter case there; every other field keeps its values in order.
   */
  lemma StrippedExactly(h: Header, k: string)
    requires CanonicalTokens(h)
    ensures k in Stripped(h) <==> k in h && !Names(HOP_BY_HOP, k) && !Names(Options(Get(h, "Connection")), k)
    ensures k in Stripped(h) ==> Stripped(h)[k] == h[k]
  {
    var first := Deleted(h, Options(Get(h, "Connection")));
    DeletedIff(h, Options(Get(h, "Connection")), k);
    DeletedIff(first, HOP_BY_HOP, k);
  }

  lemma ConnectionGone(h: Header)
    ensures Get(Stripped(h), "Connection") == ""
  {
    hide Options;
    assert HOP_BY_HOP[0] == "Connection";
    assert "Connection" in HOP_BY_HOP;
  }

  /** Stripping again changes nothing. */
  lemma StrippingIsIdempotent(h: Header)
    ensures Stripped(Stripped(h)) == Stripped(h)
  {
    ConnectionGone(h);
    var once := Stripped(h);
    hide Canonical, Get, HOP_BY_HOP;
    assert Deleted(once, []) == once;
  }

  // ---------- the upstream header, from the fields ----------

  /** j is a spelling of c, with values. */
  ghost predicate Spells(fields: Header, j: string, c: string) {
    j in fields && fields[j] != [] && Canonical(j) == c
  }

  /** Some field with canonical name c has values. */
  ghost predicate HasField(fields: Header, c: string) {
    exists j :: Spells(fields, j, c)
  }

  /** The first lines of the Connection fields, or "" when there is none. The walk decides
      which of them becomes the line that is read. */
  ghost predicate IsConnectionLine(fields: Header, line: string) {
    if HasField(fields, "Connection") then exists j :: Spells(fields, j, "Connection") && line == fields[j][0]
    else line == ""
  }

  lemma {:induction false} FirstOfWalk(fields: Header, ks: seq<string>, c: string)
    requires forall k :: k in ks ==> k in fields
    ensures ValuesAt(fields, ks, c) != [] ==>
              exists j :: j in ks && Spells(fields, j, c) && ValuesAt(fields, ks, c)[0] == fields[j][0]
    ensures ValuesAt(fields, ks, c) == [] ==> forall j :: j in ks ==> !Spells(fields, j, c)
  {
    hide Canonical;
    if ks != [] { FirstOfWalk(fields, ks[..|ks| - 1], c); }
  }

  /** The line read after a walk is one of the first lines. */
  lemma WalkReadsALine(fields: Header, ks: seq<string>)
    requires IsWalk(fields, ks)
    ensures IsConnectionLine(fields, Get(AddedInOrder(fields, ks), "Connection"))
  {
    ConnectionIsCanonical();
    hide Canonical, AddedInOrder, NoDup;
    AddedAt(fields, ks, "Connection");
    FirstOfWalk(fields, ks, "Connection");
  }

  /**
   For token names that differ in more than letter case, the final header has just the
   fields with values that are neither on the fixed list nor named on the first line of
   Connection, with their values.
   */
  lemma UpstreamHeaderExactly(fields: Header, ks: seq<string>, line: string, k: string)
    requires (forall j :: j in fields ==> IsToken(j)) && CanonicallyDistinct(fields)
    requires IsWalk(fields, ks) && IsConnectionLine(fields, line)
    ensures var h := Stripped(AddedInOrder(fields, ks));
            && (k in h <==> HasField(fields, k) && !Names(HOP_BY_HOP, k) && !Names(Options(line), k))
            && (k in h ==> forall j :: Spells(fields, j, k) ==> h[k] == fields[j])
  {
    hide Canonical, AddedInOrder, Stripped, Names, Options, NoDup, HOP_BY_HOP, IsConnectionLine;
    var h := AddedInOrder(fields, ks);
    AddedAreCanonicalTokens(fields, ks);
    WalkReadsALine(fields, ks);
    OneLine(fields, line, Get(h, "Connection"));
    StrippedExactly(h, k);
    AddedAt(fields, ks, k);
    FirstOfWalk(fields, ks, k);
    forall j | Spells(fields, j, k) ensures h[k] == fields[j] {
      AddedCollects(fields, ks);
    }
  }

  lemma OneLine(fields: Header, f: string, g: string)
    requires CanonicallyDistinct(fields) && IsConnectionLine(fields, f) && IsConnectionLine(fields, g)
    ensures f == g
  {
    hide Canonical;
  }

  /** All names are tokens, of one character at least. */
  ghost predicate TokenNames(fields: Header) {
    forall j :: j in fields ==> j != "" && IsToken(j)
  }

  /** No two names are the same but for letter case. */
  ghost predicate FoldDistinct(fields: Header) {
    forall j, k :: j in fields && k in fields && EqualFold(j, k) ==> j == k
  }

  lemma FoldsTo(n: string, l: string, k: string)
    requires ToLower(n) == l
    ensures EqualFold(n, k) <==> ToLower(k) == l
  {
  }

  lemma Lowered0()
    ensures ToLower("Connection") == "connection"
    ensures ToLower("Keep-Alive") == "keep-alive"
  {
  }

  lemma Lowered2()
    ensures ToLower("Proxy-Authenticate") == "proxy-authenticate"
  {
  }

  lemma Lowered3()
    ensures ToLower("Proxy-Authorization") == "proxy-authorization"
    ensures ToLower("Proxy-Connection") == "proxy-connection"
  {
  }

  lemma Lowered5()
    ensures ToLower("TE") == "te"
    ensures ToLower("Trailer") == "trailer"
    ensures ToLower("Trailers") == "trailers"
  {
  }

  lemma Lowered8()
    ensures ToLower("Transfer-Encoding") == "transfer-encoding"
    ensures ToLower("Upgrade") == "upgrade"
  {
  }

  lemma TenNames(l: seq<string>, k: string)
    requires |l| == 10
    ensures Names(l, k) <==>
            || EqualFold(l[0], k) || EqualFold(l[1], k) || EqualFold(l[2], k) || EqualFold(l[3], k)
            || EqualFold(l[4], k) || EqualFold(l[5], k) || EqualFold(l[6], k) || EqualFold(l[7], k)
            || EqualFold(l[8], k) || EqualFold(l[9], k)
  {
    hide EqualFold;
    forall i | 0 <= i < 10 ensures l[i] in l {}
  }

  lemma NamesOfList(k: string)
    ensures Names(HOP_BY_HOP, k) <==>
            || EqualFold("Connection", k)
            || EqualFold("Keep-Alive", k)
            || EqualFold("Proxy-Authenticate", k)
            || EqualFold("Proxy-Authorization", k)
            || EqualFold("Proxy-Connection", k)
            || EqualFold("TE", k)
            || EqualFold("Trailer", k)
            || EqualFold("Trailers", k)
            || EqualFold("Transfer-Encoding", k)
            || EqualFold("Upgrade", k)
  {
    hide EqualFold, Names;
    TenNames(HOP_BY_HOP, k);
  }

  /** The fixed list, in any letter case. */
  lemma ListOnText(k: string)
    ensures Names(HOP_BY_HOP, k) <==>
            ToLower(k) in {"connection", "keep-alive", "proxy-authenticate", "proxy-authorization", "proxy-connection",
                           "te", "trailer", "trailers", "transfer-encoding", "upgrade"}
  {
    hide ToLower, EqualFold, Names, HOP_BY_HOP;
    NamesOfList(k);
    Lowered0();
    Lowered2();
    Lowered3();
    Lowered5();
    Lowered8();
    FoldsTo("Connection", "connection", k);
    FoldsTo("Keep-Alive", "keep-alive", k);
    FoldsTo("Proxy-Authenticate", "proxy-authenticate", k);
    FoldsTo("Proxy-Authorization", "proxy-authorization", k);
    FoldsTo("Proxy-Connection", "proxy-connection", k);
    FoldsTo("TE", "te", k);
    FoldsTo("Trailer", "trailer", k);
    FoldsTo("Trailers", "trailers", k);
    FoldsTo("Transfer-Encoding", "transfer-encoding", k);
    FoldsTo("Upgrade", "upgrade", k);
  }

  /** A Connection line names just its elements that are a name and no more. */
  lemma OptionsOnText(conn: seq<Item>, k: string)
    requires AreItems(conn) && k != "" && '=' !in k
    ensures Names(Options(LineOf(conn)), k) <==> ListedIn(conn, k)
  {
    hide IsItem, ItemText, TrimSpace, EqualFold;
    NothingFolds(k);
    SplitCommaLine(conn);
    forall i | 0 <= i < |conn|
      ensures EqualFold(TrimSpace(ItemText(conn[i])), k) <==> conn[i].value.None? && EqualFold(conn[i].name, k)
    {
      ItemIsName(conn[i], k);
    }
    if LineOf(conn) != "" {
      hide LineOf, Split;
      var opts := Options(LineOf(conn));
      assert |opts| == |conn| && forall i :: 0 <= i < |conn| ==> opts[i] == TrimSpace(ItemText(conn[i]));
      forall i | 0 <= i < |conn| && conn[i].value.None? && EqualFold(conn[i].name, k) ensures Names(opts, k) {
        assert opts[i] in opts;
      }
    }
  }

  lemma TokenHasNoEquals(j: string)
    requires IsToken(j)
    ensures '=' !in j
  {
    forall i | 0 <= i < |j| ensures j[i] != '=' { assert IsTokenChar(j[i]); }
  }

  lemma FoldTwice(n: string, j: string)
    ensures EqualFold(n, Canonical(j)) <==> EqualFold(n, j)
    ensures ToLower(Canonical(j)) == ToLower(j)
  {
    CanonicalFolds(j);
  }

  lemma DistinctByFold(fields: Header)
    requires TokenNames(fields) && FoldDistinct(fields)
    ensures CanonicallyDistinct(fields)
  {
    forall j, k | j in fields && k in fields && Canonical(j) == Canonical(k) ensures j == k {
      CanonicalIffFold(j, k);
    }
  }

  /** What stripping makes of one field with values and a name off the list. */
  lemma FieldOnText(fields: Header, ks: seq<string>, j: string, conn: seq<Item>)
    requires TokenNames(fields) && FoldDistinct(fields) && IsWalk(fields, ks)
    requires j in fields && fields[j] != [] && j != "" && AreItems(conn) && IsConnectionLine(fields, LineOf(conn))
    requires !Names(HOP_BY_HOP, j)
    ensures var h, c := Stripped(AddedInOrder(fields, ks)), Canonical(j);
            if ListedIn(conn, j) then c !in h else c in h && h[c] == fields[j]
  {
    hide Canonical, AddedInOrder, Stripped, NoDup, HOP_BY_HOP, IsConnectionLine, Options, EqualFold;
    DistinctByFold(fields);
    var c := Canonical(j);
    forall n ensures EqualFold(n, c) <==> EqualFold(n, j) { FoldTwice(n, j); }
    UpstreamHeaderExactly(fields, ks, LineOf(conn), c);
    TokenHasNoEquals(j);
    OptionsOnText(conn, j);
    assert Spells(fields, j, c);
  }

  /** What stripping leaves, without the list or the order of the walk. */
  lemma StrippedOnText(fields: Header, ks: seq<string>)
    requires IsWalk(fields, ks)
    ensures TokenNames(fields) ==>
              forall k :: k in Stripped(AddedInOrder(fields, ks)) ==>
                ToLower(k) !in {"connection", "keep-alive", "proxy-authenticate", "proxy-authorization",
                                "proxy-connection", "te", "trailer", "trailers", "transfer-encoding", "upgrade"}
    ensures TokenNames(fields) && FoldDistinct(fields) ==>
              && (forall j, conn ::
                    && j in fields && fields[j] != [] && AreItems(conn) && IsConnectionLine(fields, LineOf(conn))
                    && ToLower(j) !in {"connection", "keep-alive", "proxy-authenticate", "proxy-authorization",
                                       "proxy-connection", "te", "trailer", "trailers", "transfer-encoding",
                                       "upgrade"} ==>
                      var h, c := Stripped(AddedInOrder(fields, ks)), Canonical(j);
                      if ListedIn(conn, j) then c !in h else c in h && h[c] == fields[j])
              && (forall k :: k in Stripped(AddedInOrder(fields, ks)) ==> HasField(fields, k))
  {
    hide Canonical, AddedInOrder, Stripped, NoDup, HOP_BY_HOP, IsConnectionLine, ListedIn, Names, AreItems;
    if TokenNames(fields) {
      AddedAreCanonicalTokens(fields, ks);
      forall k | k in Stripped(AddedInOrder(fields, ks)) ensures !Names(HOP_BY_HOP, k) && HasField(fields, k) {
        StrippedExactly(AddedInOrder(fields, ks), k);
        AddedAt(fields, ks, k);
        FirstOfWalk(fields, ks, k);
      }
      forall k { ListOnText(k); }
      if FoldDistinct(fields) {
        forall j, conn |
          && j in fields && fields[j] != [] && AreItems(conn) && IsConnectionLine(fields, LineOf(conn))
          && !Names(HOP_BY_HOP, j)
        {
          FieldOnText(fields, ks, j, conn);
        }
      }
    }
  }

  // ---------- when the walk decides ----------

  predicate Listed(names: seq<string>, c: string) {
    exists n :: n in names && Canonical(n) == c
  }

  /** c is in the final header when this is the line that is read. */
  ghost predicate Survives(fields: Header, line: string, c: string) {
    HasField(fields, c) && !Listed(HOP_BY_HOP, c) && !Listed(Options(line), c)
  }

  lemma StrippedAt(fields: Header, ks: seq<string>, c: string)
    requires IsWalk(fields, ks)
    ensures var h := AddedInOrder(fields, ks);
            && (c in Stripped(h) <==> Survives(fields, Get(h, "Connection"), c))
            && (c in Stripped(h) ==> Stripped(h)[c] == ValuesAt(fields, ks, c))
  {
    hide Canonical, AddedInOrder, NoDup, Options, HOP_BY_HOP, Get;
    AddedAt(fields, ks, c);
    FirstOfWalk(fields, ks, c);
  }

  /** Each of the first lines is read by some walk. */
  lemma WalkWithLine(fields: Header, line: string) returns (ks: seq<string>)
    requires IsConnectionLine(fields, line)
    ensures IsWalk(fields, ks) && Get(AddedInOrder(fields, ks), "Connection") == line
  {
    ConnectionIsCanonical();
    hide Canonical, AddedInOrder, ValuesAt;
    if HasField(fields, "Connection") {
      var j :| Spells(fields, j, "Connection") && line == fields[j][0];
      var rest := SomeOrder(fields.Keys - {j});
      assert j !in rest;
      ks := [j] + rest;
      ValuesConcat(fields, [j], rest, "Connection");
      ValuesOfOne(fields, j, "Connection");
    } else {
      ks := SomeOrder(fields.Keys);
      FirstOfWalk(fields, ks, "Connection");
    }
    AddedAt(fields, ks, "Connection");
  }

  /** All first lines leave the same fields, and of those no two spellings have values that
      the order changes. */
  ghost predicate Determined(fields: Header) {
    && (forall f, g, c :: IsConnectionLine(fields, f) && IsConnectionLine(fields, g) && Survives(fields, f, c) ==>
          Survives(fields, g, c))
    && (forall f, c :: IsConnectionLine(fields, f) && Survives(fields, f, c) ==> CommuteAt(fields, c))
  }

  lemma DeterminedAt(fields: Header, ks: seq<string>, ls: seq<string>, c: string)
    requires Determined(fields) && IsWalk(fields, ks) && IsWalk(fields, ls)
    ensures var a, b := Stripped(AddedInOrder(fields, ks)), Stripped(AddedInOrder(fields, ls));
            (c in a <==> c in b) && (c in a ==> a[c] == b[c])
  {
    hide Canonical, AddedInOrder, Stripped, Get, NoDup, Survives, IsConnectionLine, CommuteAt, ValuesAt;
    WalkReadsALine(fields, ks);
    WalkReadsALine(fields, ls);
    StrippedAt(fields, ks, c);
    StrippedAt(fields, ls, c);
    if c in Stripped(AddedInOrder(fields, ks)) { ValuesAgree(fields, ks, ls, c); }
  }

  /** A first line that leaves c and one that does not: the walk decides whether c is sent. */
  lemma LineDecides(fields: Header, f: string, g: string, c: string) returns (ks: seq<string>, ls: seq<string>)
    requires IsConnectionLine(fields, f) && IsConnectionLine(fields, g)
    requires Survives(fields, f, c) && !Survives(fields, g, c)
    ensures IsWalk(fields, ks) && IsWalk(fields, ls)
    ensures c in Stripped(AddedInOrder(fields, ks)) && c !in Stripped(AddedInOrder(fields, ls))
  {
    hide Canonical, AddedInOrder, Stripped, Get, NoDup, Survives, IsConnectionLine;
    ks := WalkWithLine(fields, f);
    ls := WalkWithLine(fields, g);
    StrippedAt(fields, ks, c);
    StrippedAt(fields, ls, c);
  }

  /** A field that is sent and has spellings that do not commute: the walk decides its values. */
  lemma ValuesDecided(fields: Header, c: string) returns (ks: seq<string>, ls: seq<string>)
    requires forall f :: IsConnectionLine(fields, f) ==> Survives(fields, f, c)
    requires c != "Connection" && !CommuteAt(fields, c)
    ensures IsWalk(fields, ks) && IsWalk(fields, ls)
    ensures Stripped(AddedInOrder(fields, ks)) != Stripped(AddedInOrder(fields, ls))
  {
    hide Canonical, AddedInOrder, Stripped, NoDup, Survives, IsConnectionLine, CommuteAt, ValuesAt, Get;
    ks, ls := WalksDiffer(fields, c);
    WalkReadsALine(fields, ks);
    WalkReadsALine(fields, ls);
    StrippedAt(fields, ks, c);
    StrippedAt(fields, ls, c);
    AddedAt(fields, ks, c);
    AddedAt(fields, ls, c);
  }

  /**
   The final header is the same whatever the order of the walk exactly when all first
   lines of Connection leave the same fields and the spellings of each of those commute.
   */
  lemma UpstreamHeaderIsDeterminedIff(fields: Header)
    ensures (forall ks: seq<string>, ls: seq<string> :: IsWalk(fields, ks) && IsWalk(fields, ls) ==>
               Stripped(AddedInOrder(fields, ks)) == Stripped(AddedInOrder(fields, ls)))
            <==> Determined(fields)
  {
    hide Canonical, AddedInOrder, Stripped, NoDup, Survives, IsConnectionLine, CommuteAt;
    if Determined(fields) {
      forall ks: seq<string>, ls: seq<string> | IsWalk(fields, ks) && IsWalk(fields, ls)
        ensures Stripped(AddedInOrder(fields, ks)) == Stripped(AddedInOrder(fields, ls))
      {
        forall c: string { DeterminedAt(fields, ks, ls, c); }
      }
    } else if f, g, c :| IsConnectionLine(fields, f) && IsConnectionLine(fields, g) &&
                         Survives(fields, f, c) && !Survives(fields, g, c) {
      var ks, ls := LineDecides(fields, f, g, c);
    } else {
      var f, c :| IsConnectionLine(fields, f) && Survives(fields, f, c) && !CommuteAt(fields, c);
      NotConnection(fields, f, c);
      var ks, ls := ValuesDecided(fields, c);
    }
  }

  lemma NotConnection(fields: Header, f: string, c: string)
    requires Survives(fields, f, c)
    ensures c != "Connection"
  {
    ConnectionIsCanonical();
    assert HOP_BY_HOP[0] == "Connection";
    hide Canonical, Options;
  }

  // ---------- Connection on several lines ----------

  /** Some Connection line names k. */
  ghost predicate NamedOnSomeLine(h: Header, k: string) {
    "Connection" in h && exists n :: 0 <= n < |h["Connection"]| && Names(Options(h["Connection"][n]), k)
  }

  /**
   Only the first line is read. No field that any line names is forwarded exactly when
   every field present that a later line names is also on the first line or on the list.
   */
  lemma EveryLineHonouredIff(h: Header)
    requires CanonicalTokens(h)
    ensures (forall k :: k in Stripped(h) ==> !NamedOnSomeLine(h, k))
            <==> (forall k, n ::
                    k in h && "Connection" in h && 0 < n < |h["Connection"]| &&
                    Names(Options(h["Connection"][n]), k) ==>
                    Names(HOP_BY_HOP, k) || Names(Options(h["Connection"][0]), k))
  {
    hide Stripped, Names, Options, HOP_BY_HOP, Canonical, IsToken;
    ConnectionIsCanonical();
    forall k ensures k in Stripped(h) <==> k in h && !Names(HOP_BY_HOP, k) && !Names(Options(Get(h, "Connection")), k) {
      StrippedExactly(h, k);
    }
    if forall k, n ::
         k in h && "Connection" in h && 0 < n < |h["Connection"]| && Names(Options(h["Connection"][n]), k) ==>
         Names(HOP_BY_HOP, k) || Names(Options(h["Connection"][0]), k)
    {
      forall k, n | k in Stripped(h) && "Connection" in h && 0 <= n < |h["Connection"]|
        ensures !Names(Options(h["Connection"][n]), k)
      {
        assert k in h && !Names(HOP_BY_HOP, k) && !Names(Options(Get(h, "Connection")), k);
      }
    } else {
      var k, n :| k in h && "Connection" in h && 0 < n < |h["Connection"]| && Names(Options(h["Connection"][n]), k)
                  && !Names(HOP_BY_HOP, k) && !Names(Options(h["Connection"][0]), k);
      assert k in Stripped(h) && NamedOnSomeLine(h, k);
    }
  }

  lemma ConnectionIsCanonical()
    ensures IsToken("Connection") && Canonical("Connection") == "Connection"
  {
  }

  // ---------- two cases outside the conditions ----------

  lemma OneOption(s: string)
    requires s != "" && ',' !in s && !IsSpace(s[0]) && !IsSpace(s[|s| - 1])
    ensures Options(s) == [s]
  {
    NoSeparator(s, ',');
    TrimNone(s);
  }

  lemma LowerSpelling()
    ensures Canonical("connection") == "Connection"
  {
    hide IsTokenChar;
    assert IsToken("connection") by { TokenConnection(); }
    hide IsToken;
    var s, t := "connection", "Connection";
    assert |s| == |t| == 10 && '-' !in s;
    assert UpperChar(s[0]) == t[0];
    forall i | 0 < i < 10 ensures LowerChar(s[i]) == t[i] {
      assert s[i] == t[i];
    }
    assert Canonical(s) == t;
  }

  lemma TokenConnection()
    ensures IsToken("connection")
  {
  }

  lemma ShortNames()
    ensures Canonical("A") == "A" && Canonical("B") == "B"
    ensures "A" != "B" && "B" != "Connection" && "connection" != "Connection"
  {
    assert "A"[0] != "B"[0] && |"B"| == 1 && |"Connection"| == 10;
    assert "Connection"[0] != "connection"[0];
  }

  lemma XTraceIsCanonical()
    ensures IsToken("X-Trace") && Canonical("X-Trace") == "X-Trace" && "X-Trace" != "Connection"
  {
    assert |"X-Trace"| == 7 && |"Connection"| == 10;
  }

  lemma XTraceIsFree()
    ensures !Names(HOP_BY_HOP, "X-Trace") && !Names(["close"], "X-Trace") && Names(["X-Trace"], "X-Trace")
  {
    forall n | n in HOP_BY_HOP ensures !EqualFold(n, "X-Trace") {
      assert |ToLower(n)| == |n| && |ToLower("X-Trace")| == 7;
      assert n != "" && LowerChar(n[0]) != 'x';
      assert ToLower(n)[0] == LowerChar(n[0]) && ToLower("X-Trace")[0] == 'x';
    }
    assert |ToLower("close")| == 5 && |ToLower("X-Trace")| == 7;
    assert EqualFold("X-Trace", "X-Trace");
  }

  lemma BIsFree()
    ensures !Listed(HOP_BY_HOP, "B")
  {
    forall n | n in HOP_BY_HOP ensures Canonical(n) != "B" {
      assert |n| > 1;
      assert |Canonical(n)| == |n|;
    }
  }

  /** A field named on a second Connection line only is sent on. */
  lemma SecondConnectionLineUnseen()
    ensures var h: Header := map["Connection" := ["close", "X-Trace"], "X-Trace" := ["1"]];
            CanonicalTokens(h) && NamedOnSomeLine(h, "X-Trace") && "X-Trace" in Stripped(h)
  {
    hide Canonical, IsToken, HOP_BY_HOP, Options, Stripped, Names;
    var h: Header := map["Connection" := ["close", "X-Trace"], "X-Trace" := ["1"]];
    XTraceIsCanonical();
    ConnectionIsCanonical();
    XTraceIsFree();
    OneOption("close");
    OneOption("X-Trace");
    assert h["Connection"][1] == "X-Trace";
    StrippedExactly(h, "X-Trace");
  }

  /** With two spellings of Connection the walk decides which field is sent on. */
  lemma SpellingOfConnectionDecides() returns (ks: seq<string>, ls: seq<string>)
    ensures var fields: Header := map["Connection" := ["A"], "connection" := ["B"], "A" := ["1"], "B" := ["1"]];
            && IsWalk(fields, ks) && IsWalk(fields, ls)
            && "B" in Stripped(AddedInOrder(fields, ks)) && "B" !in Stripped(AddedInOrder(fields, ls))
  {
    hide Canonical, IsToken, HOP_BY_HOP, Options, Stripped, AddedInOrder, NoDup;
    var fields: Header := map["Connection" := ["A"], "connection" := ["B"], "A" := ["1"], "B" := ["1"]];
    LowerSpelling();
    ShortNames();
    ConnectionIsCanonical();
    BIsFree();
    OneOption("A");
    OneOption("B");
    assert Spells(fields, "Connection", "Connection") && Spells(fields, "connection", "Connection");
    assert Spells(fields, "B", "B");
    ks, ls := LineDecides(fields, "A", "B", "B");
  }
}
