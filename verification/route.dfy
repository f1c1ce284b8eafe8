/**
  The page's hash route: `(location.hash || '').replace('#/', '').replace('#', '') || 'home'`,
  computed once when the page starts and again on every `hashchange`.
 */
module Route {
  import opened JsString

  const Home: string := "home"
  const Entourage: string := "entourage"

  /** The route named by a location hash. `hash || ''` is the hash itself for a string. */
  function RouteOf(hash: string): (route: string)
    ensures route != ""
  {
    var stripped := RemoveFirst(RemoveFirst(hash, "#/"), "#");
    if stripped == "" then Home else stripped
  }

  /** The page shown for a route: the entourage page for exactly "entourage", the main site otherwise. */
  datatype Page = MainSite | EntouragePage

  function PageOf(route: string): (p: Page)
    ensures p == EntouragePage <==> route == Entourage
  {
    if route == Entourage then EntouragePage else MainSite
  }

  /** A hash of the form "#/name" routes to "name", when "name" holds no '#'. */
  lemma {:induction false} SlashHashRoute(name: string)
    requires name != "" && '#' !in name
    ensures RouteOf("#/" + name) == name
  {
    RemoveLeading("#/", name);
    NoHashNoOccurrence(name);
  }

  /** A hash of the form "#name" routes to "name", when "name" holds no '#' and does not start with '/'. */
  lemma {:induction false} PlainHashRoute(name: string)
    requires name != "" && '#' !in name && name[0] != '/'
    ensures RouteOf("#" + name) == name
  {
    var h := "#" + name;
    forall i | 0 <= i <= |h| - 2
      ensures !OccursAt(h, "#/", i)
    {
      if i == 0 {
        assert h[1] == name[0];
      } else {
        assert h[i] == name[i - 1];
      }
    }
    RemoveAbsent(h, "#/");
    RemoveLeading("#", name);
  }

  /** The empty hash, a lone '#' and a lone "#/" all lead to the main site. */
  lemma {:induction false} EmptyHashIsHome()
    ensures RouteOf("") == Home && RouteOf("#") == Home && RouteOf("#/") == Home
  {
    RemoveLeading("#", "");
    RemoveLeading("#/", "");
    assert "#" + "" == "#";
    assert "#/" + "" == "#/";
  }

  /** Both spellings of the home link, "#home" and "#/home", lead to the main site like the empty hash. */
  lemma HomeHashes()
    ensures RouteOf("#home") == Home && RouteOf("#/home") == Home
    ensures PageOf(RouteOf("#home")) == MainSite && PageOf(RouteOf("#/home")) == MainSite
  {
    assert "#" + Home == "#home";
    assert "#/" + Home == "#/home";
    PlainHashRoute(Home);
    SlashHashRoute(Home);
  }

  /** The link "#/entourage" opens the entourage page. */
  lemma EntourageHash()
    ensures PageOf(RouteOf("#/entourage")) == EntouragePage
  {
    var h := "#/entourage";
    assert h == "#/" + Entourage;
    SlashHashRoute(Entourage);
  }

  /** A string without '#' has no occurrence of a pattern that starts with '#'. */
  lemma NoHashNoOccurrence(s: string)
    requires '#' !in s
    ensures forall i :: 0 <= i <= |s| - 1 ==> !OccursAt(s, "#", i)
    ensures forall i :: 0 <= i <= |s| - 2 ==> !OccursAt(s, "#/", i)
  {
    forall i | 0 <= i <= |s| - 1 ensures !OccursAt(s, "#", i) {
      assert s[i..i + 1][0] == s[i];
    }
    forall i | 0 <= i <= |s| - 2 ensures !OccursAt(s, "#/", i) {
      assert s[i..i + 2][0] == s[i];
    }
  }
}
