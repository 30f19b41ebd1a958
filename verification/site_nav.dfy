/**
 * The page-navigation script (site/assets/js/site.js): which section a page belongs to,
 * where the site is rooted, and which "back" links are put at the top of the page. The
 * page's main element is modelled as its list of child nodes.
 */
module SiteNav {
  import opened Wrappers
  import opened Strings

  datatype Section = LanguageArts | LifeSkills

  /** The section's path segment. */
  function Slug(s: Section): string {
    match s
    case LanguageArts => "language-arts"
    case LifeSkills => "life-skills"
  }

  /** The section's display name. */
  function Label(s: Section): string {
    match s
    case LanguageArts => "Language Arts"
    case LifeSkills => "Life Skills"
  }

  /** The section a lower-cased path names, testing Language Arts first. */
  function SectionOfPath(p: string): (r: Option<Section>)
    ensures r == Some(LanguageArts) <==> Contains(p, "/language-arts/")
    ensures r == Some(LifeSkills) <==> !Contains(p, "/language-arts/") && Contains(p, "/life-skills/")
  {
    if Contains(p, "/language-arts/") then Some(LanguageArts)
    else if Contains(p, "/life-skills/") then Some(LifeSkills)
    else None
  }

  /**
   * `getSection()`: a non-empty `<meta name="section">` content mentioning "language" or
   * "life" (in any case, in that order) decides; otherwise the path does, case-insensitively.
   * `meta` is the content attribute, `None` when there is no such element.
   */
  function GetSection(meta: Option<string>, pathname: string): (r: Option<Section>)
    ensures Given(meta) && Contains(Lower(meta.value), "language") ==> r == Some(LanguageArts)
    ensures Given(meta) && !Contains(Lower(meta.value), "language") && Contains(Lower(meta.value), "life") ==> r == Some(LifeSkills)
    ensures !(Given(meta) && (Contains(Lower(meta.value), "language") || Contains(Lower(meta.value), "life"))) ==>
      r == SectionOfPath(Lower(pathname))
  {
    if Given(meta) && Contains(Lower(meta.value), "language") then Some(LanguageArts)
    else if Given(meta) && Contains(Lower(meta.value), "life") then Some(LifeSkills)
    else SectionOfPath(Lower(pathname))
  }

  /** A meta content that is present and non-empty. */
  predicate Given(meta: Option<string>) {
    meta.Some? && meta.value != ""
  }

  /** Lower-casing is idempotent. */
  lemma LowerIdempotent(s: string)
    ensures Lower(Lower(s)) == Lower(s)
  {
  }

  /** The path's letter case never matters to the section. */
  lemma SectionIgnoresCase(meta: Option<string>, pathname: string)
    ensures GetSection(meta, pathname) == GetSection(meta, Lower(pathname))
  {
    LowerIdempotent(pathname);
  }

  const SiteMarker: string := "/site/"

  /**
   * `getSiteBase()`: the path up to and including its first `/site/`, or `/` when there is
   * none.
   */
  function SiteBase(pathname: string): (r: string)
    ensures r == "/" <==> IndexOf(pathname, SiteMarker) < 0
    ensures r != "/" ==>
      && r <= pathname
      && |r| >= |SiteMarker| && r[|r| - |SiteMarker|..] == SiteMarker
      && forall j :: 0 <= j < |r| - |SiteMarker| ==> !OccursAt(pathname, SiteMarker, j)
  {
    var i := IndexOf(pathname, SiteMarker);
    if i >= 0 then
      assert pathname[i..i + 6] == SiteMarker;
      pathname[..i + 6]
    else "/"
  }

  /** Drops a leading run of `/`. */
  function DropSlashes(s: string): (r: string)
    ensures |r| <= |s| && r == s[|s| - |r|..]
    ensures |r| == 0 || r[0] != '/'
    ensures forall i :: 0 <= i < |s| - |r| ==> s[i] == '/'
    decreases |s|
  {
    if |s| > 0 && s[0] == '/' then DropSlashes(s[1..]) else s
  }

  /** `s[i]` is the first `/` of `s`. */
  predicate FirstSlash(s: string, i: int) {
    0 <= i < |s| && s[i] == '/' && forall k :: 0 <= k < i ==> s[k] != '/'
  }

  /** `s.replace(/\/+/, '/')`: the first run of slashes becomes one slash; the rest is kept. */
  function CollapseFirstSlashes(s: string): (r: string)
    ensures '/' !in s ==> r == s
    ensures forall i :: FirstSlash(s, i) ==> r == s[..i] + "/" + DropSlashes(s[i + 1..])
    ensures |r| <= |s|
    decreases |s|
  {
    if |s| == 0 then s
    else if s[0] == '/' then
      FirstRunAtStart(s);
      "/" + DropSlashes(s[1..])
    else
      var rest := CollapseFirstSlashes(s[1..]);
      FirstRunShift(s, rest);
      [s[0]] + rest
  }

  /** When `s` does not start with `/`, its first slash run is that of `s[1..]`, one place on. */
  lemma FirstRunShift(s: string, rest: string)
    requires |s| > 0 && s[0] != '/'
    requires forall j :: FirstSlash(s[1..], j) ==> rest == s[1..][..j] + "/" + DropSlashes(s[1..][j + 1..])
    ensures forall i :: FirstSlash(s, i) ==> [s[0]] + rest == s[..i] + "/" + DropSlashes(s[i + 1..])
  {
    forall i | FirstSlash(s, i) ensures [s[0]] + rest == s[..i] + "/" + DropSlashes(s[i + 1..]) {
      FirstSlashShift(s, i);
    }
  }

  lemma FirstRunAtStart(s: string)
    requires |s| > 0 && s[0] == '/'
    ensures forall i :: FirstSlash(s, i) ==> "/" + DropSlashes(s[1..]) == s[..i] + "/" + DropSlashes(s[i + 1..])
  {
    forall i | FirstSlash(s, i) ensures "/" + DropSlashes(s[1..]) == s[..i] + "/" + DropSlashes(s[i + 1..]) {
      assert i == 0;
      assert s[..i] + "/" == "/";
    }
  }

  lemma FirstSlashShift(s: string, i: int)
    requires |s| > 0 && s[0] != '/' && FirstSlash(s, i)
    ensures i >= 1 && FirstSlash(s[1..], i - 1)
    ensures [s[0]] + s[1..][..i - 1] == s[..i] && s[1..][i..] == s[i + 1..]
  {
    forall k | 0 <= k < i - 1 ensures s[1..][k] != '/' {
      assert s[1..][k] == s[k + 1];
    }
  }

  /** No two adjacent characters of `s` are both `/`. */
  predicate NoDoubleSlash(s: string) {
    forall i :: 0 <= i < |s| - 1 ==> !(s[i] == '/' && s[i + 1] == '/')
  }

  /** Joining two such strings makes none, unless the seam puts two slashes together. */
  lemma NoDoubleSlashJoin(a: string, b: string)
    requires NoDoubleSlash(a) && NoDoubleSlash(b)
    requires |a| == 0 || |b| == 0 || a[|a| - 1] != '/' || b[0] != '/'
    ensures NoDoubleSlash(a + b)
  {
    forall i | 0 <= i < |a + b| - 1 ensures !((a + b)[i] == '/' && (a + b)[i + 1] == '/') {
      if i + 1 < |a| {
        assert (a + b)[i] == a[i] && (a + b)[i + 1] == a[i + 1];
      } else if i >= |a| {
        assert (a + b)[i] == b[i - |a|] && (a + b)[i + 1] == b[i + 1 - |a|];
      }
    }
  }

  /** A string whose slashes are all single is left as it is. */
  lemma {:induction false} SingleSlashesKept(s: string)
    requires NoDoubleSlash(s)
    ensures CollapseFirstSlashes(s) == s
    decreases |s|
  {
    if |s| > 0 && s[0] != '/' {
      SingleSlashesKept(s[1..]);
    } else if |s| > 1 {
      assert s[1] != '/';
      assert DropSlashes(s[1..]) == s[1..];
    }
  }

  /** `(siteBase.toLowerCase() + section + '/')` with its first slash run collapsed. */
  function SectionPath(section: Section, siteBase: string): string {
    CollapseFirstSlashes(Lower(siteBase) + Slug(section) + "/")
  }

  /** `isSectionLandingPage(section, siteBase)`: the section's own index page. */
  predicate IsSectionLandingPage(section: Section, siteBase: string, pathname: string) {
    var p := Lower(pathname);
    p == SectionPath(section, siteBase) || p == SectionPath(section, siteBase) + "index.html"
  }

  /**
   * With a site base whose slashes are all single, the landing pages are exactly the
   * section's folder under that base and its `index.html`, in any letter case.
   */
  lemma LandingPageOfPlainBase(section: Section, siteBase: string, pathname: string)
    requires NoDoubleSlash(Lower(siteBase))
    ensures IsSectionLandingPage(section, siteBase, pathname) <==>
      || Lower(pathname) == Lower(siteBase) + Slug(section) + "/"
      || Lower(pathname) == Lower(siteBase) + Slug(section) + "/index.html"
  {
    var base := Lower(siteBase);
    var folder := Slug(section) + "/";
    FolderIsPlain(section);
    NoDoubleSlashJoin(base, folder);
    assert base + folder == base + Slug(section) + "/";
    SingleSlashesKept(base + folder);
    assert SectionPath(section, siteBase) == base + Slug(section) + "/";
    assert base + Slug(section) + "/" + "index.html" == base + Slug(section) + "/index.html";
  }

  /** A section's folder name starts with a letter and has no doubled slash. */
  lemma FolderIsPlain(section: Section)
    ensures NoDoubleSlash(Slug(section) + "/") && (Slug(section) + "/")[0] != '/'
  {
    var f := Slug(section) + "/";
    forall i | 0 <= i < |f| - 1 ensures f[i] != '/' {
      match section
      case LanguageArts => assert f == "language-arts/";
      case LifeSkills => assert f == "life-skills/";
    }
  }

  /** Outside a `/site/` folder the base is `/`, and the landing pages sit at the root. */
  lemma LandingPageAtRoot(section: Section, pathname: string)
    requires IndexOf(pathname, SiteMarker) < 0
    ensures IsSectionLandingPage(section, SiteBase(pathname), pathname) <==>
      || Lower(pathname) == "/" + Slug(section) + "/"
      || Lower(pathname) == "/" + Slug(section) + "/index.html"
  {
    assert Lower("/") == "/";
    LandingPageOfPlainBase(section, "/", pathname);
  }

  /** A node of the page's main element; the script only adds back-navigation links. */
  datatype Node = BackNav(href: string, caption: string) | Content(id: nat)

  const ToolkitMarker: string := "/language-arts/toolkit/presentations/"

  /** The link back to the section's index. */
  function SectionNav(section: Section, siteBase: string): Node {
    BackNav(siteBase + Slug(section) + "/", Label(section))
  }

  /** The link back to the Language Arts toolkit. */
  function ToolkitNav(siteBase: string): Node {
    BackNav(siteBase + "language-arts/toolkit/", "Toolkit")
  }

  /**
   * `insertBackButton(section)`: nothing without a section or on a landing page; otherwise
   * the section link goes first, and on a toolkit presentation the toolkit link right after
   * it, since each is inserted before the then-first child.
   */
  function InsertBackButton(section: Option<Section>, pathname: string, children: seq<Node>): (r: seq<Node>)
    ensures section.None? ==> r == children
    ensures section.Some? && IsSectionLandingPage(section.value, SiteBase(pathname), pathname) ==> r == children
    ensures section.Some? && !IsSectionLandingPage(section.value, SiteBase(pathname), pathname) ==>
      var extra := if Contains(Lower(pathname), ToolkitMarker) then 2 else 1;
      && |r| == |children| + extra
      && r[extra..] == children
      && r[0] == SectionNav(section.value, SiteBase(pathname))
      && (extra == 2 ==> r[1] == ToolkitNav(SiteBase(pathname)))
  {
    if section.None? then children
    else
      var base := SiteBase(pathname);
      if IsSectionLandingPage(section.value, base, pathname) then children
      else
        var links := if Contains(Lower(pathname), ToolkitMarker) then [SectionNav(section.value, base), ToolkitNav(base)]
                     else [SectionNav(section.value, base)];
        links + children
  }

  /** `initializeNavigation()` (heading centring is styling and not modelled). */
  function InitializeNavigation(meta: Option<string>, pathname: string, children: seq<Node>): (r: seq<Node>)
    ensures |r| >= |children| && r[|r| - |children|..] == children
    ensures forall i :: 0 <= i < |r| - |children| ==> r[i].BackNav?
  {
    InsertBackButton(GetSection(meta, pathname), pathname, children)
  }
}
