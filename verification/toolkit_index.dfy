/**
 * The math-toolkit index builder (scripts/build-math-toolkit-index.js): how a directory
 * listing of modules becomes the newest-first list of `{ title, description, url, slug,
 * thumbnail, lastModified }` entries. Reading files, the HTML-extraction patterns and
 * timestamps' ISO rendering are inputs here.
 */
module ToolkitIndex {
  import opened Wrappers
  import opened Strings

  // ---------------------------------------------------------------- humanize

  /** No two neighbouring characters both satisfy `p`. */
  predicate NoPair(s: string, p: char -> bool) {
    forall i :: 0 <= i < |s| - 1 ==> !(p(s[i]) && p(s[i + 1]))
  }

  /** No two neighbouring characters are both whitespace. */
  predicate NoDoubleSpace(s: string) {
    NoPair(s, IsSpace)
  }

  /** Index of the last `.` in `s`, or -1. */
  function LastDot(s: string): (d: int)
    ensures -1 <= d < |s|
    ensures d >= 0 ==> s[d] == '.'
    ensures forall i :: d < i < |s| ==> s[i] != '.'
    decreases |s|
  {
    if |s| == 0 then -1
    else if s[|s| - 1] == '.' then |s| - 1
    else LastDot(s[..|s| - 1])
  }

  /** `s[i]` is the dot `/\.[^.]+$/` matches at: the last dot, with something after it. */
  predicate ExtensionDot(s: string, i: int) {
    0 <= i < |s| - 1 && s[i] == '.' && forall j :: i < j < |s| ==> s[j] != '.'
  }

  /**
   * `name.replace(/\.[^.]+$/, '')`: drops the final extension, a last `.` followed by at
   * least one character. A name with no dot, or ending in a dot, is kept whole.
   */
  function StripExtension(s: string): (r: string)
    ensures r <= s
    ensures r != s <==> exists i :: ExtensionDot(s, i)
    ensures r != s ==> ExtensionDot(s, |r|)
  {
    var d := LastDot(s);
    if d >= 0 && d < |s| - 1 then
      assert ExtensionDot(s, d);
      s[..d]
    else
      s
  }

  /** A name whose last character is a dot has no extension to drop. */
  lemma TrailingDotKeepsName(s: string)
    requires |s| > 0 && s[|s| - 1] == '.'
    ensures StripExtension(s) == s
  {
    assert forall i :: 0 <= i < |s| - 1 ==> !ExtensionDot(s, i);
  }

  /**
   * Replaces each maximal run of characters satisfying `p` with one space; `inRun` says the
   * previous input character was in a run.
   */
  function CollapseFrom(s: string, p: char -> bool, inRun: bool): (r: string)
    ensures forall i :: 0 <= i < |r| ==> r[i] == ' ' || (r[i] in s && !p(r[i]))
    ensures Visible(r, p) == Visible(s, p)
    ensures (forall i :: 0 <= i < |s| ==> !p(s[i])) ==> r == s
    decreases |s|
  {
    if |s| == 0 then []
    else if p(s[0]) then
      var rest := CollapseFrom(s[1..], p, true);
      var lead: string := if inRun then [] else [' '];
      VisibleRun(s, rest, lead, p);
      lead + rest
    else
      var rest := CollapseFrom(s[1..], p, false);
      VisibleKept(s, rest, p);
      [s[0]] + rest
  }

  /** The characters of `s` that are neither run characters nor spaces, in order. */
  function Visible(s: string, p: char -> bool): string
    decreases |s|
  {
    if |s| == 0 then [] else (if p(s[0]) || s[0] == ' ' then [] else [s[0]]) + Visible(s[1..], p)
  }

  /** A run character becomes at most one space, which does not show. */
  lemma VisibleRun(s: string, rest: string, lead: string, p: char -> bool)
    requires |s| > 0 && p(s[0]) && Visible(rest, p) == Visible(s[1..], p)
    requires lead == [] || lead == [' ']
    ensures Visible(lead + rest, p) == Visible(s, p)
  {
    assert Visible(s, p) == [] + Visible(s[1..], p);
    assert [] + Visible(s[1..], p) == Visible(s[1..], p);
    if lead == [] {
      assert lead + rest == rest;
    } else {
      assert (lead + rest)[1..] == rest;
    }
  }

  /** A character outside any run is copied, and shows exactly as it did. */
  lemma VisibleKept(s: string, rest: string, p: char -> bool)
    requires |s| > 0 && !p(s[0]) && Visible(rest, p) == Visible(s[1..], p)
    ensures Visible([s[0]] + rest, p) == Visible(s, p)
  {
    assert ([s[0]] + rest)[1..] == rest;
  }

  /** `s.replace(/<p>+/g, ' ')`. */
  function Collapse(s: string, p: char -> bool): (r: string) {
    CollapseFrom(s, p, false)
  }

  /** After a run a collapse never emits a run character first; and never two in a row. */
  lemma {:induction false} CollapseSeparates(s: string, p: char -> bool, inRun: bool)
    requires p(' ')
    ensures var r := CollapseFrom(s, p, inRun);
      && (inRun && |r| > 0 ==> !p(r[0]))
      && NoPair(r, p)
    decreases |s|
  {
    if |s| > 0 {
      var rest := CollapseFrom(s[1..], p, p(s[0]));
      CollapseSeparates(s[1..], p, p(s[0]));
      var r := CollapseFrom(s, p, inRun);
      if p(s[0]) && !inRun {
        assert r == [' '] + rest;
        forall i | 0 <= i < |r| - 1 ensures !(p(r[i]) && p(r[i + 1])) {
          assert r[i + 1] == rest[i];
          if i > 0 { assert r[i] == rest[i - 1]; }
        }
      } else if !p(s[0]) {
        assert r == [s[0]] + rest;
        forall i | 0 <= i < |r| - 1 ensures !(p(r[i]) && p(r[i + 1])) {
          assert r[i + 1] == rest[i];
          if i > 0 { assert r[i] == rest[i - 1]; }
        }
      }
    }
  }

  predicate IsDashOrUnderscore(c: char) {
    c == '-' || c == '_'
  }

  /** `\w`: an ASCII letter, digit or underscore. */
  predicate IsWordChar(c: char) {
    'a' <= c <= 'z' || 'A' <= c <= 'Z' || '0' <= c <= '9' || c == '_'
  }

  /** `\b\w` matches at `i`: a word character with no word character before it. */
  predicate WordStart(s: string, i: int)
    requires 0 <= i < |s|
  {
    IsWordChar(s[i]) && (i == 0 || !IsWordChar(s[i - 1]))
  }

  /** `s.replace(/\b\w/g, c => c.toUpperCase())`. */
  function Capitalize(s: string): (r: string)
    ensures |r| == |s|
    ensures forall i :: 0 <= i < |s| ==> r[i] == (if WordStart(s, i) then UpperChar(s[i]) else s[i])
  {
    seq(|s|, i requires 0 <= i < |s| => if WordStart(s, i) then UpperChar(s[i]) else s[i])
  }

  /** Capitalising twice is capitalising once: upper-casing keeps word characters word characters. */
  lemma CapitalizeIdempotent(s: string)
    ensures Capitalize(Capitalize(s)) == Capitalize(s)
  {
    var c := Capitalize(s);
    assert forall i :: 0 <= i < |s| ==> (IsWordChar(c[i]) <==> IsWordChar(s[i]));
    assert forall i :: 0 <= i < |s| ==> (WordStart(c, i) <==> WordStart(s, i));
  }

  /** Whatever is not a word start is carried through, and nothing but ASCII letters changes. */
  lemma CapitalizeKeepsClasses(s: string)
    ensures forall i :: 0 <= i < |s| ==> (IsSpace(Capitalize(s)[i]) <==> IsSpace(s[i]))
    ensures forall i :: 0 <= i < |s| ==> (IsDashOrUnderscore(Capitalize(s)[i]) <==> IsDashOrUnderscore(s[i]))
  {
  }

  /** The two collapses leave no `-`/`_` and no whitespace pair. */
  lemma CollapsedName(name: string)
    ensures var b := Collapse(Collapse(name, IsDashOrUnderscore), IsSpace);
      && (forall i :: 0 <= i < |b| ==> !IsDashOrUnderscore(b[i]))
      && NoDoubleSpace(b)
  {
    var a := Collapse(name, IsDashOrUnderscore);
    CollapseSeparates(a, IsSpace, false);
  }

  /** Trimming keeps "no `-`/`_`" and "no whitespace pair". */
  lemma TrimKeepsShape(b: string)
    requires forall i :: 0 <= i < |b| ==> !IsDashOrUnderscore(b[i])
    requires NoDoubleSpace(b)
    ensures forall i :: 0 <= i < |Trim(b)| ==> !IsDashOrUnderscore(Trim(b)[i])
    ensures NoDoubleSpace(Trim(b))
  {
    var k := TrimInfix(b);
    InfixKeeps(b, Trim(b), k, IsSpace, IsDashOrUnderscore);
  }

  /** A contiguous stretch of `b` keeps every character test and every "no pair" test of `b`. */
  lemma InfixKeeps(b: string, c: string, k: int, p: char -> bool, q: char -> bool)
    requires 0 <= k && k + |c| <= |b|
    requires forall i :: 0 <= i < |c| ==> c[i] == b[k + i]
    requires forall i :: 0 <= i < |b| ==> !q(b[i])
    requires NoPair(b, p)
    ensures forall i :: 0 <= i < |c| ==> !q(c[i])
    ensures NoPair(c, p)
  {
    forall i | 0 <= i < |c| ensures !q(c[i]) {
      assert c[i] == b[k + i];
    }
    forall i | 0 <= i < |c| - 1 ensures !(p(c[i]) && p(c[i + 1])) {
      assert c[i] == b[k + i] && c[i + 1] == b[k + i + 1];
    }
  }

  /** A name free of `-`/`_`, of edge whitespace and of whitespace pairs stays so when capitalised. */
  lemma CapitalizeKeepsShape(c: string)
    requires forall i :: 0 <= i < |c| ==> !IsDashOrUnderscore(c[i])
    requires |c| == 0 || (!IsSpace(c[0]) && !IsSpace(c[|c| - 1]))
    requires NoDoubleSpace(c)
    ensures var r := Capitalize(c);
      && (forall i :: 0 <= i < |r| ==> !IsDashOrUnderscore(r[i]))
      && (|r| == 0 || (!IsSpace(r[0]) && !IsSpace(r[|r| - 1])))
      && NoDoubleSpace(r)
  {
    var r := Capitalize(c);
    CapitalizeKeepsClasses(c);
    forall i | 0 <= i < |r| - 1 ensures !(IsSpace(r[i]) && IsSpace(r[i + 1])) {
      assert !(IsSpace(c[i]) && IsSpace(c[i + 1]));
    }
  }

  /** `.trim()` then `\b\w` capitalisation of the collapsed name. */
  function Finish(b: string): (r: string)
    requires forall i :: 0 <= i < |b| ==> !IsDashOrUnderscore(b[i])
    requires NoDoubleSpace(b)
    ensures forall i :: 0 <= i < |r| ==> !IsDashOrUnderscore(r[i])
    ensures |r| == 0 || (!IsSpace(r[0]) && !IsSpace(r[|r| - 1]))
    ensures NoDoubleSpace(r)
  {
    var c := Trim(b);
    TrimKeepsShape(b);
    CapitalizeKeepsShape(c);
    Capitalize(c)
  }

  /**
   * `humanize(name)`: drop the extension, turn runs of `-`/`_` into one space, collapse
   * whitespace runs, trim, and capitalise each word.
   */
  function Humanize(name: string): (r: string)
    ensures forall i :: 0 <= i < |r| ==> !IsDashOrUnderscore(r[i])
    ensures |r| == 0 || (!IsSpace(r[0]) && !IsSpace(r[|r| - 1]))
    ensures NoDoubleSpace(r)
  {
    var base := StripExtension(name);
    CollapsedName(base);
    Finish(Collapse(Collapse(base, IsDashOrUnderscore), IsSpace))
  }

  /** A name with no extension, separators or whitespace is only capitalised. */
  lemma HumanizePlainWord(name: string)
    requires forall i :: 0 <= i < |name| ==> name[i] != '.' && !IsDashOrUnderscore(name[i]) && !IsSpace(name[i])
    ensures Humanize(name) == Capitalize(name)
  {
    NoDotKeepsName(name);
    CollapseNothing(name, IsDashOrUnderscore);
    CollapseNothing(name, IsSpace);
    TrimOfNoSpace(name);
  }

  lemma NoDotKeepsName(s: string)
    requires forall i :: 0 <= i < |s| ==> s[i] != '.'
    ensures StripExtension(s) == s
  {
    assert forall i :: !ExtensionDot(s, i);
  }

  lemma CollapseNothing(s: string, p: char -> bool)
    requires forall i :: 0 <= i < |s| ==> !p(s[i])
    ensures Collapse(s, p) == s
  {
  }

  /** Trimming a string without whitespace keeps it. */
  lemma TrimOfNoSpace(s: string)
    requires forall i :: 0 <= i < |s| ==> !IsSpace(s[i])
    ensures Trim(s) == s
  {
    assert TrimStart(s) == s;
    assert TrimEnd(s) == s;
  }

  // ---------------------------------------------------------------- extraction

  /** What a pattern match yields: `m[1]` and `m[2]`, each absent when the group did not take part. */
  datatype Match = Match(group1: Option<string>, group2: Option<string>)

  /**
   * `getFirst(text, regex)`, given `regex.exec(text)`: the trimmed first non-empty group, or
   * `''` when there is none or no match.
   */
  function GetFirst(m: Option<Match>): (r: string)
    ensures |r| == 0 || (!IsSpace(r[0]) && !IsSpace(r[|r| - 1]))
    ensures m.None? ==> r == ""
    ensures m.Some? && m.value.group1.Some? && m.value.group1.value != "" ==> r == Trim(m.value.group1.value)
    ensures m.Some? && (m.value.group1.None? || m.value.group1.value == "") ==>
      r == Trim(if m.value.group2.Some? then m.value.group2.value else "")
  {
    match m
    case None => ""
    case Some(Match(g1, g2)) =>
      if g1.Some? && g1.value != "" then Trim(g1.value)
      else if g2.Some? && g2.value != "" then Trim(g2.value)
      else Trim("")
  }

  /** The thumbnail file names looked for, in order of preference. */
  const ThumbnailNames: seq<string> := ["thumbnail.png", "thumbnail.jpg", "thumbnail.jpeg", "thumbnail.webp"]

  /** `names[i]` is present and no earlier name is. */
  predicate FirstPresentAt(names: seq<string>, present: set<string>, i: int) {
    0 <= i < |names| && names[i] in present && forall j :: 0 <= j < i ==> names[j] !in present
  }

  /** The first of `names` that `present` holds, or `''`. */
  function FirstPresent(names: seq<string>, present: set<string>): (r: string)
    requires forall i :: 0 <= i < |names| ==> names[i] != ""
    ensures r == "" ==> forall i :: 0 <= i < |names| ==> names[i] !in present
    ensures r != "" ==> exists i :: FirstPresentAt(names, present, i) && names[i] == r
    decreases |names|
  {
    if |names| == 0 then ""
    else if names[0] in present then
      assert FirstPresentAt(names, present, 0);
      names[0]
    else
      var r := FirstPresent(names[1..], present);
      if r == "" then r
      else
        var i :| FirstPresentAt(names[1..], present, i) && names[1..][i] == r;
        assert FirstPresentAt(names, present, i + 1);
        r
  }

  /** `findThumbnail(dir)`, where `present` is the set of file names in `dir`. */
  function FindThumbnail(present: set<string>): (r: string)
    ensures r == "" <==> forall i :: 0 <= i < |ThumbnailNames| ==> ThumbnailNames[i] !in present
    ensures r != "" ==> exists i :: FirstPresentAt(ThumbnailNames, present, i) && ThumbnailNames[i] == r
  {
    assert forall i :: 0 <= i < |ThumbnailNames| ==> ThumbnailNames[i] != "";
    FirstPresent(ThumbnailNames, present)
  }

  // ---------------------------------------------------------------- entries

  /** `extractFromHtml(file)`: the page's title, description and `og:image`, already trimmed. */
  datatype Meta = Meta(title: string, description: string, ogImage: string)

  /** A directory entry of the modules directory. */
  datatype Kind = File | Directory(hasIndex: bool) | OtherKind

  /**
   * One listed entry with what the script reads about it: its page's metadata and
   * modification time (of the file, or of the directory's `index.html`) and the file names
   * present in it when it is a directory.
   */
  datatype Entry = Entry(kind: Kind, name: string, meta: Meta, mtime: int, files: set<string>)

  /** One generated module record; `lastModified` is the time in milliseconds. */
  datatype Module = Module(title: string, description: string, url: string, slug: string, thumbnail: string, lastModified: int)

  /** Length of a trailing `.html` / `.htm`, in any letter case, or 0. */
  function HtmlSuffix(name: string): (n: nat)
    ensures n in {0, 4, 5} && n <= |name|
    ensures n > 0 ==> name[|name| - n] == '.'
    ensures n == 5 ==> Lower(name[|name| - 5..]) == ".html"
    ensures n == 4 ==> Lower(name[|name| - 4..]) == ".htm"
    ensures n == 0 ==> !(|name| >= 5 && Lower(name[|name| - 5..]) == ".html") && !(|name| >= 4 && Lower(name[|name| - 4..]) == ".htm")
  {
    if |name| >= 5 && Lower(name[|name| - 5..]) == ".html" then
      assert Lower(name[|name| - 5..])[0] == '.';
      5
    else if |name| >= 4 && Lower(name[|name| - 4..]) == ".htm" then
      assert Lower(name[|name| - 4..])[0] == '.';
      4
    else 0
  }

  /** `/\.html?$/i.test(name)`. */
  predicate IsHtmlName(name: string) {
    HtmlSuffix(name) > 0
  }

  /** `meta.title || humanize(name)`. */
  function Title(meta: Meta, name: string): (t: string)
    ensures meta.title != "" ==> t == meta.title
    ensures meta.title == "" ==> t == Humanize(name)
  {
    if meta.title != "" then meta.title else Humanize(name)
  }

  /**
   * The record for one entry, or none. `rootFiles` are the names present in the modules
   * directory itself; `encode` is `encodeURIComponent`.
   */
  function ModuleOf(e: Entry, rootFiles: set<string>, encode: string -> string): (m: Option<Module>)
    ensures m.Some? <==> (e.kind.File? && IsHtmlName(e.name)) || (e.kind.Directory? && e.kind.hasIndex)
    ensures m.Some? ==>
      && m.value.lastModified == e.mtime && m.value.description == e.meta.description
      && m.value.title == Title(e.meta, e.name)
    ensures m.Some? && e.kind.File? ==>
      && m.value.slug == e.name[..|e.name| - HtmlSuffix(e.name)]
      && m.value.url == "./modules/" + encode(e.name)
      && var thumb := if e.meta.ogImage != "" then e.meta.ogImage else FindThumbnail(rootFiles);
         m.value.thumbnail == (if thumb != "" then "./modules/" + thumb else "")
    ensures m.Some? && e.kind.Directory? ==>
      && m.value.slug == e.name
      && m.value.url == "./modules/" + encode(e.name) + "/"
      && (e.meta.ogImage != "" ==> m.value.thumbnail == e.meta.ogImage)
      && (e.meta.ogImage == "" ==>
            m.value.thumbnail == if FindThumbnail(e.files) != "" then "./modules/" + encode(e.name) + "/" + FindThumbnail(e.files) else "")
  {
    match e.kind
    case File =>
      if !IsHtmlName(e.name) then None
      else
        var thumb := if e.meta.ogImage != "" then e.meta.ogImage else FindThumbnail(rootFiles);
        Some(Module(Title(e.meta, e.name), e.meta.description, "./modules/" + encode(e.name),
                    e.name[..|e.name| - HtmlSuffix(e.name)], if thumb != "" then "./modules/" + thumb else "", e.mtime))
    case Directory(hasIndex) =>
      if !hasIndex then None
      else
        var local := FindThumbnail(e.files);
        var thumb := if e.meta.ogImage != "" then e.meta.ogImage
                     else if local != "" then "./modules/" + encode(e.name) + "/" + local else "";
        Some(Module(Title(e.meta, e.name), e.meta.description, "./modules/" + encode(e.name) + "/",
                    e.name, thumb, e.mtime))
    case OtherKind => None
  }

  /** The number of entries that give a record. */
  function Qualifying(entries: seq<Entry>, rootFiles: set<string>, encode: string -> string): nat
    decreases |entries|
  {
    if |entries| == 0 then 0
    else (if ModuleOf(entries[0], rootFiles, encode).Some? then 1 else 0) + Qualifying(entries[1..], rootFiles, encode)
  }

  /** The scan loop: one record per qualifying entry. */
  function Collect(entries: seq<Entry>, rootFiles: set<string>, encode: string -> string): (ms: seq<Module>)
    ensures |ms| == Qualifying(entries, rootFiles, encode) <= |entries|
    ensures forall m :: m in ms ==> exists e :: e in entries && ModuleOf(e, rootFiles, encode) == Some(m)
    ensures forall e :: e in entries && ModuleOf(e, rootFiles, encode).Some? ==> ModuleOf(e, rootFiles, encode).value in ms
    decreases |entries|
  {
    if |entries| == 0 then []
    else
      var rest := Collect(entries[1..], rootFiles, encode);
      match ModuleOf(entries[0], rootFiles, encode)
      case None => rest
      case Some(m) => [m] + rest
  }

  // ---------------------------------------------------------------- sort

  /** Newest first: `lastModified` never increases along the list. */
  predicate NewestFirst(ms: seq<Module>) {
    forall i, j :: 0 <= i < j < |ms| ==> ms[i].lastModified >= ms[j].lastModified
  }

  /** A record no older than everything in a newest-first list can go in front of it. */
  lemma PrependNewest(x: Module, ms: seq<Module>)
    requires NewestFirst(ms)
    requires forall y :: y in ms ==> x.lastModified >= y.lastModified
    ensures NewestFirst([x] + ms)
  {
    var r := [x] + ms;
    forall i, j | 0 <= i < j < |r| ensures r[i].lastModified >= r[j].lastModified {
      assert r[j] == ms[j - 1];
      if i > 0 { assert r[i] == ms[i - 1]; }
    }
  }

  /** Places `m` before the first record that is strictly older. */
  function Insert(m: Module, ms: seq<Module>): (r: seq<Module>)
    requires NewestFirst(ms)
    ensures NewestFirst(r)
    ensures multiset(r) == multiset(ms) + multiset{m}
    ensures forall x :: x in r ==> x == m || x in ms
    decreases |ms|
  {
    if |ms| == 0 || m.lastModified >= ms[0].lastModified then
      PrependNewest(m, ms);
      [m] + ms
    else
      assert ms == [ms[0]] + ms[1..];
      var rest := Insert(m, ms[1..]);
      PrependNewest(ms[0], rest);
      [ms[0]] + rest
  }

  /** `result.sort((a, b) => new Date(b.lastModified) - new Date(a.lastModified))`. */
  function SortNewestFirst(ms: seq<Module>): (r: seq<Module>)
    ensures NewestFirst(r)
    ensures multiset(r) == multiset(ms)
    decreases |ms|
  {
    if |ms| == 0 then []
    else
      assert ms == [ms[0]] + ms[1..];
      Insert(ms[0], SortNewestFirst(ms[1..]))
  }

  /** A list already newest first is left as it is. */
  lemma {:induction false} SortKeepsSorted(ms: seq<Module>)
    requires NewestFirst(ms)
    ensures SortNewestFirst(ms) == ms
    decreases |ms|
  {
    if |ms| > 0 {
      SortKeepsSorted(ms[1..]);
    }
  }

  /** `scan()`: the collected records, newest first. */
  function Scan(entries: seq<Entry>, rootFiles: set<string>, encode: string -> string): (ms: seq<Module>)
    ensures NewestFirst(ms)
    ensures multiset(ms) == multiset(Collect(entries, rootFiles, encode))
  {
    SortNewestFirst(Collect(entries, rootFiles, encode))
  }
}
