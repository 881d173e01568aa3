/** The domain allow list. The host comes without its port. */
module Domains {
  import opened Text

  /** One entry of the list against a lower-cased host. */
  predicate EntryAllows(h: string, allowed: string) {
    var a := ToLower(allowed);
    h == a || (HasPrefix(a, "*.") && HasSuffix(h, a[1..]))
  }

  predicate ScanAllows(h: string, allowList: seq<string>) {
    allowList != [] && (EntryAllows(h, allowList[0]) || ScanAllows(h, allowList[1..]))
  }

  predicate IsAllowedDomain(host: string, allowList: seq<string>) {
    allowList == [] || ScanAllows(ToLower(host), allowList)
  }

  function Labels(s: string): seq<string> { Split(s, '.') }

  /** h lies strictly below base in the domain tree. */
  predicate IsSubdomain(h: string, base: string) {
    var hs, bs := Labels(h), Labels(base);
    |hs| > |bs| && hs[|hs| - |bs|..] == bs
  }

  /** The suffix test on strings is the subdomain relation on labels. */
  lemma SuffixIsSubdomain(h: string, base: string)
    ensures HasSuffix(h, "." + base) <==> IsSubdomain(h, base)
  {
    var hs, bs := Labels(h), Labels(base);
    if HasSuffix(h, "." + base) {
      var front := h[..|h| - |base| - 1];
      assert h == front + ['.'] + base;
      SplitConcat(front, '.', base);
    }
    if IsSubdomain(h, base) {
      var front := hs[..|hs| - |bs|];
      assert hs == front + bs;
      JoinSplit(h, '.');
      JoinSplit(base, '.');
      JoinConcat(front, bs, '.');
      assert h == Join(front, '.') + ['.'] + base;
      assert h[|h| - |base| - 1..] == "." + base;
    }
  }

  lemma {:induction false} ScanIffEntry(h: string, allowList: seq<string>)
    ensures ScanAllows(h, allowList) <==> exists i :: 0 <= i < |allowList| && EntryAllows(h, allowList[i])
  {
    if allowList != [] {
      ScanIffEntry(h, allowList[1..]);
      if i :| 0 <= i < |allowList| && EntryAllows(h, allowList[i]) && i > 0 {
        assert allowList[1..][i - 1] == allowList[i];
      }
      if i :| 0 <= i < |allowList[1..]| && EntryAllows(h, allowList[1..][i]) {
        assert allowList[i + 1] == allowList[1..][i];
      }
    }
  }

  /** What an entry means, letter case aside: the host itself, or "*." and a proper ancestor of it. */
  predicate Permits(host: string, allowed: string) {
    || EqualFold(host, allowed)
    || (HasPrefix(allowed, "*.") && IsSubdomain(ToLower(host), ToLower(allowed[2..])))
  }

  lemma EntryMeans(host: string, allowed: string)
    ensures EntryAllows(ToLower(host), allowed) <==> Permits(host, allowed)
  {
    var a := ToLower(allowed);
    assert HasPrefix(a, "*.") <==> HasPrefix(allowed, "*.") by {
      if |a| >= 2 {
        assert a[..2] == [a[0], a[1]] && allowed[..2] == [allowed[0], allowed[1]];
      }
    }
    if HasPrefix(allowed, "*.") {
      assert allowed[..2][1] == '.';
      assert a[1..] == "." + ToLower(allowed[2..]);
      SuffixIsSubdomain(ToLower(host), ToLower(allowed[2..]));
    }
  }

  /** The list allows a host exactly when it is empty or an entry permits the host. */
  lemma AllowedIffPermitted(host: string, allowList: seq<string>)
    ensures IsAllowedDomain(host, allowList) <==>
            allowList == [] || exists i :: 0 <= i < |allowList| && Permits(host, allowList[i])
  {
    ScanIffEntry(ToLower(host), allowList);
    forall i | 0 <= i < |allowList|
      ensures EntryAllows(ToLower(host), allowList[i]) <==> Permits(host, allowList[i])
    {
      EntryMeans(host, allowList[i]);
    }
  }
}
