/** The navigation bar's active-link highlighting over its fixed link list. */
module Navbar {
  import Seqs
  import Text

  datatype Link = Link(name: string, href: string)

  const Links: seq<Link> := [
    Link("Home", "/"),
    Link("Men", "/men"),
    Link("Women", "/women"),
    Link("Shop", "/shop"),
    Link("Cart", "/cart")
  ]

  /** `isActive(href)`: the home link only on "/" itself, any other link on
      every path that starts with its href. */
  function IsActive(pathname: string, href: string): (r: bool)
    ensures r ==> Text.StartsWith(pathname, href)
    ensures pathname == href ==> r
  {
    if href == "/" then pathname == "/" else Text.StartsWith(pathname, href)
  }

  lemma HomeActiveIff(pathname: string)
    ensures IsActive(pathname, "/") <==> pathname == "/"
  {
  }

  lemma OtherActiveIff(pathname: string, href: string)
    requires href != "/"
    ensures IsActive(pathname, href) <==> |href| <= |pathname| && pathname[..|href|] == href
  {
  }

  /** For every path at most one link of the bar is highlighted. */
  lemma AtMostOneActive(pathname: string, i: int, j: int)
    requires 0 <= i < j < |Links|
    ensures !(IsActive(pathname, Links[i].href) && IsActive(pathname, Links[j].href))
  {
    var hi, hj := Links[i].href, Links[j].href;
    assert |hj| >= 4 && hj[0] == '/';
    if i == 0 {
      assert hi == "/";
    } else {
      assert |hi| >= 4 && hi[1] != hj[1];
      assert IsActive(pathname, hi) ==> |pathname| >= 2 && pathname[1] == hi[1];
      assert IsActive(pathname, hj) ==> |pathname| >= 2 && pathname[1] == hj[1];
    }
  }

  function ActiveFor(pathname: string): Link -> bool {
    (l: Link) => IsActive(pathname, l.href)
  }

  /** The highlighted links for a path: never more than one, and exactly the
      link whose href matches when there is one. */
  function ActiveLinks(pathname: string): (r: seq<Link>)
    ensures |r| <= 1
    ensures forall i :: 0 <= i < |Links| && IsActive(pathname, Links[i].href) ==> r == [Links[i]]
    ensures |r| == 0 <==> forall i :: 0 <= i < |Links| ==> !IsActive(pathname, Links[i].href)
  {
    var r := Seqs.Filter(Links, ActiveFor(pathname));
    forall i | 0 <= i < |Links| && IsActive(pathname, Links[i].href) ensures r == [Links[i]] {
      OnlyActive(pathname, i);
    }
    r
  }

  /** Filtering the bar by one active link leaves that link alone. */
  lemma OnlyActive(pathname: string, k: int)
    requires 0 <= k < |Links| && IsActive(pathname, Links[k].href)
    ensures Seqs.Filter(Links, ActiveFor(pathname)) == [Links[k]]
  {
    var keep := ActiveFor(pathname);
    forall i | 0 <= i < |Links| && i != k ensures !keep(Links[i]) {
      if i < k { AtMostOneActive(pathname, i, k); } else { AtMostOneActive(pathname, k, i); }
    }
    Seqs.FilterSingle(Links, keep, k);
  }

  /** Prefix matching is not segment-aware: "/menu" highlights "Men" and no
      other link, while "/" highlights "Home" and no other link. */
  lemma PrefixMatchExample()
    ensures forall k :: 0 <= k < |Links| ==> (IsActive("/menu", Links[k].href) <==> k == 1)
    ensures forall k :: 0 <= k < |Links| ==> (IsActive("/", Links[k].href) <==> k == 0)
  {
    assert "/menu"[..4] == "/men";
    assert "/menu"[..5][1] != "/shop"[1];
    assert "/menu"[..5][1] != "/cart"[1];
  }
}
