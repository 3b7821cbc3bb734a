/** The site header: which navigation link is highlighted for the current
    path, and the mobile menu's open/closed state. */
module Header {

  /** `isActive(href)` for the current `pathname`: an exact match, or, for
      any link but the home link `"/"`, a prefix match. */
  predicate IsActive(pathname: string, href: string) {
    pathname == href || (href != "/" && href <= pathname)
  }

  const ActiveClass: string := "transition text-(--primary) font-semibold"
  const InactiveClass: string := "transition text-(--text-secondary) hover:text-(--primary)"

  /** `linkClass(href)`: the highlighted classes exactly for an active link. */
  function LinkClass(pathname: string, href: string): (r: string)
    ensures r == ActiveClass <==> IsActive(pathname, href)
    ensures r == InactiveClass <==> !IsActive(pathname, href)
  {
    assert ActiveClass[19] != InactiveClass[19];
    if IsActive(pathname, href) then ActiveClass else InactiveClass
  }

  /** A link is active on its own path. */
  lemma ActiveOnOwnPath(href: string)
    ensures IsActive(href, href)
  {
  }

  /** The home link is active only on the home page. */
  lemma HomeActiveIff(pathname: string)
    ensures IsActive(pathname, "/") <==> pathname == "/"
  {
  }

  /** Any other link is active exactly on the paths it prefixes. */
  lemma OtherLinkActiveIff(pathname: string, href: string)
    requires href != "/"
    ensures IsActive(pathname, href) <==> href <= pathname
  {
  }

  /** Prefix matching is by characters, not by path segments. */
  lemma PrefixIsNotSegmentMatch()
    ensures IsActive("/productsX", "/products")
    ensures IsActive("/products/42", "/products")
  {
    assert "/products" == "/productsX"[..9];
    assert "/products" == "/products/42"[..9];
  }

  /** The links of the navigation bar, desktop and mobile alike. */
  const NavLinks: seq<string> := ["/", "/products", "/categories", "/about", "/contact"]

  /** On any path at most one navigation link is highlighted. */
  lemma AtMostOneNavLinkActive(pathname: string, i: nat, j: nat)
    requires i < |NavLinks| && j < |NavLinks|
    requires IsActive(pathname, NavLinks[i]) && IsActive(pathname, NavLinks[j])
    ensures i == j
  {
    var a, b := NavLinks[i], NavLinks[j];
    if i != j && i != 0 && j != 0 {
      if |a| <= |b| {
        PrefixesOfOnePath(a, b, pathname);
        NavLinksNotPrefixes(i, j);
      } else {
        PrefixesOfOnePath(b, a, pathname);
        NavLinksNotPrefixes(j, i);
      }
    }
  }

  lemma PrefixesOfOnePath(a: string, b: string, pathname: string)
    requires |a| <= |b| && a <= pathname && b <= pathname
    ensures a <= b
  {
    assert a == pathname[..|a|] && b[..|a|] == pathname[..|a|];
  }

  /** Apart from the home link, no navigation link is a prefix of another. */
  lemma NavLinksNotPrefixes(i: nat, j: nat)
    requires 0 < i < |NavLinks| && 0 < j < |NavLinks| && i != j
    ensures !(NavLinks[i] <= NavLinks[j])
  {
    var a, b := NavLinks[i], NavLinks[j];
    assert |a| > 2 && |b| > 2;
    assert a[1] != b[1] || a[2] != b[2];
  }

  /** The `open` state of the mobile menu. */
  class Menu {
    var open: bool

    constructor ()
      ensures !open
    {
      open := false;
    }

    /** The hamburger button. */
    method ToggleMenu()
      modifies this
      ensures open == !old(open)
      ensures MobileMenuShown() <==> !old(MobileMenuShown())
    {
      open := !open;
    }

    /** A click on any link of the mobile menu. */
    method LinkClicked()
      modifies this
      ensures !open && !MobileMenuShown()
    {
      open := false;
    }

    /** The mobile menu is rendered exactly while it is open. */
    predicate MobileMenuShown()
      reads this
    {
      open
    }
  }
}
