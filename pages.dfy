/** The page that `main` of scripts/gen_city_category_pages.py writes for
    one city and one category, and what its front matter says. */
module Pages {
  import opened PyText
  import opened Slugs
  import opened Cities

  /** `OUT_DIR`, relative to the site root. */
  const OutDir: string := "category_pages"

  /** `OUT_DIR / city_slug`. */
  function CityDir(slug: string): string {
    OutDir + "/" + slug
  }

  /** `OUT_DIR / city_slug / f"{c}.md"`. */
  function PagePath(slug: string, c: string): string {
    CityDir(slug) + "/" + c + ".md"
  }

  /** The words between the category and the preposition in `h1`. */
  const Kids: string := " things to do with kids "

  /** `h1`, which is also the page's `title`. */
  function Heading(m: CityMeta, c: string): string {
    CatDisplay(c) + Kids + m.preposition + " " + m.cityTitle
  }

  /** The lines of the front matter between the two `---` lines, for the
      heading `h1`. */
  function FrontLines(m: CityMeta, c: string, h1: string): seq<string> {
    [ "layout: city_category",
      "title: " + h1,
      "permalink: /" + m.slug + "/" + c + "/",
      "city_slug: " + m.slug,
      "city_title: " + m.cityTitle,
      "preposition: " + m.preposition,
      "category: " + c,
      "h1: " + h1 ]
  }

  /** The list `fm` that `main` joins. */
  function PageLines(m: CityMeta, c: string): seq<string> {
    ["---"] + FrontLines(m, c, Heading(m, c)) + ["---", ""]
  }

  /** Lines framed by `---` lines and an empty last line join into the
      lines' join between `---` lines, ending in a newline. */
  lemma JoinFramed(body: seq<string>)
    requires body != []
    ensures JoinLines(["---"] + body + ["---", ""]) == "---\n" + JoinLines(body) + "\n---" + "\n"
  {
    JoinLinesAppend(["---"], body);
    JoinLinesAppend(["---"] + body, ["---", ""]);
    assert JoinLines(["---", ""]) == "---" + "\n" + "";
  }

  /** `"\n".join(fm)`: the text written to the page. */
  function PageText(m: CityMeta, c: string): (t: string)
    ensures t == "---\n" + JoinLines(FrontLines(m, c, Heading(m, c))) + "\n---" + "\n"
  {
    JoinFramed(FrontLines(m, c, Heading(m, c)));
    JoinLines(PageLines(m, c))
  }

  // ---------------------------------------------------------------------
  // Where the pages go

  /** Two pages land on the same path only for the same city slug and the
      same category, as categories hold no `/`. */
  lemma PagePathInjective(slug: string, c: string, slug': string, c': string)
    requires '/' !in c && '/' !in c'
    requires PagePath(slug, c) == PagePath(slug', c')
    ensures slug == slug' && c == c'
  {
    var p := PagePath(slug, c);
    var n := |p|;
    assert p == OutDir + "/" + slug + "/" + c + ".md";
    assert p == OutDir + "/" + slug' + "/" + c' + ".md";
    assert p[n - 4 - |c|] == '/';
    assert p[n - 4 - |c'|] == '/';
    assert p[n - 3 - |c|..n - 3] == c;
    assert p[n - 3 - |c'|..n - 3] == c';
    assert c == c';
    assert p[..n - 4 - |c|] == OutDir + "/" + slug;
    assert p[..n - 4 - |c|] == OutDir + "/" + slug';
    assert slug == (OutDir + "/" + slug)[|OutDir| + 1..];
    assert slug' == (OutDir + "/" + slug')[|OutDir| + 1..];
  }

  // ---------------------------------------------------------------------
  // No `---` inside the front matter

  lemma NoHyphens(s: string)
    requires '-' !in s
    ensures NoDashes(s)
  {
    forall k: nat | k < |s| ensures !DashesAt(s, k) {
      if k + 3 <= |s| {
        assert s[k] != '-';
      }
    }
  }

  /** `---` across the seam of `a + b` needs a `-` on both sides of it. */
  lemma NoDashesAppend(a: string, b: string)
    requires NoDashes(a) && NoDashes(b)
    requires a == [] || b == [] || a[|a| - 1] != '-' || b[0] != '-'
    ensures NoDashes(a + b)
  {
    var t := a + b;
    forall k: nat | k < |t| ensures !DashesAt(t, k) {
      if k + 3 <= |a| {
        assert !DashesAt(a, k);
      } else if k >= |a| && k + 3 <= |t| {
        assert !DashesAt(b, k - |a|);
      } else if k + 3 <= |t| {
        assert t[|a| - 1] == a[|a| - 1] && t[|a|] == b[0];
      }
    }
  }

  /** Slugs never hold two `-` in a row. */
  lemma SlugNoDashes(c: string)
    requires IsSlug(c)
    ensures NoDashes(c)
  {
    forall k: nat | k < |c| ensures !DashesAt(c, k) {
      if k + 3 <= |c| {
        assert !PairAt(c, k, Hyphen);
      }
    }
  }

  lemma {:induction false} NoDashesJoinLines(ls: seq<string>)
    requires forall i | 0 <= i < |ls| :: NoDashes(ls[i])
    ensures NoDashes(JoinLines(ls))
    decreases |ls|
  {
    if |ls| > 1 {
      NoHyphens("\n");
      NoDashesAppend(ls[0], "\n");
      NoDashesJoinLines(ls[1..]);
      NoDashesAppend(ls[0] + "\n", JoinLines(ls[1..]));
    } else if ls == [] {
      NoHyphens([]);
    }
  }

  // ---------------------------------------------------------------------
  // Values that survive the round trip through the front matter

  /** A value that reads back unchanged from a `key: value` line: it is not
      empty, has no whitespace at its ends, stays on one line and holds no
      `---`. */
  predicate Clean(s: string) {
    s != [] && !IsSpace(s[0]) && !IsSpace(s[|s| - 1]) && '\n' !in s && NoDashes(s)
  }

  /** The settings of a city whose page front matter reads back. */
  predicate CleanMeta(m: CityMeta) {
    Clean(m.slug) && Clean(m.cityTitle) && Clean(m.preposition)
  }

  /** The fallbacks can give settings that are not clean: a file
      `-paris.md` without front matter gets the city title ` Paris`. */
  lemma StemFallbackNotClean()
    ensures CityMetaOf("", "-paris").slug == "-paris"
    ensures CityMetaOf("", "-paris").cityTitle[0] == ' '
    ensures !CleanMeta(CityMetaOf("", "-paris"))
  {
    assert UniversalNewlines("") == "";
    NoBlockDefaults("", "-paris");
    var spaced := ReplaceChar("-paris", '-', ' ');
    assert spaced[0] == ' ';
    assert Title(spaced)[0] == ' ';
  }

  /** A category whose page front matter reads back: a non-empty slug.
      `main` also writes a page for the empty slug. */
  predicate Category(c: string) {
    IsSlug(c) && c != []
  }

  lemma DisplayIsClean(c: string)
    requires Category(c)
    ensures CatDisplay(c) != [] && !IsSpace(CatDisplay(c)[0])
    ensures '\n' !in CatDisplay(c)
    ensures NoDashes(CatDisplay(c))
  {
    var d := CatDisplay(c);
    DisplayEnds(c);
    NoHyphens(d);
    forall i | 0 <= i < |d| ensures d[i] != '\n' {
      assert ToLowerChar(d[i]) == ToLowerChar(ReplaceChar(c, '-', ' ')[i]);
    }
  }

  /** Clean parts joined by words that hold no `-` or newline and start
      and end with a space. */
  lemma SentenceIsClean(d: string, words: string, prep: string, title: string)
    requires d != [] && !IsSpace(d[0]) && '\n' !in d && NoDashes(d)
    requires |words| > 1 && words[0] == ' ' && words[|words| - 1] == ' '
    requires '-' !in words && '\n' !in words
    requires Clean(prep) && Clean(title)
    ensures Clean(d + words + prep + " " + title)
  {
    NoHyphens(words);
    NoHyphens(" ");
    NoDashesAppend(d, words);
    NoDashesAppend(d + words, prep);
    NoDashesAppend(d + words + prep, " ");
    NoDashesAppend(d + words + prep + " ", title);
    var h := d + words + prep + " " + title;
    assert h[0] == d[0];
    assert h[|h| - 1] == title[|title| - 1];
  }

  lemma KidsIsPlain()
    ensures |Kids| > 1 && Kids[0] == ' ' && Kids[|Kids| - 1] == ' '
    ensures '-' !in Kids && '\n' !in Kids
  {
  }

  lemma HeadingIsClean(m: CityMeta, c: string)
    requires CleanMeta(m) && Category(c)
    ensures Clean(Heading(m, c))
  {
    DisplayIsClean(c);
    KidsIsPlain();
    SentenceIsClean(CatDisplay(c), Kids, m.preposition, m.cityTitle);
  }

  /** `tag + v` holds no `---` when `tag` ends in a space or a `/`. */
  lemma TaggedNoDashes(tag: string, v: string)
    requires '-' !in tag && tag != [] && tag[|tag| - 1] != '-'
    requires NoDashes(v)
    ensures NoDashes(tag + v)
  {
    NoHyphens(tag);
    NoDashesAppend(tag, v);
  }

  lemma FrontLinesNoDashes(m: CityMeta, c: string, h: string)
    requires CleanMeta(m) && Category(c) && Clean(h)
    ensures forall i | 0 <= i < |FrontLines(m, c, h)| :: NoDashes(FrontLines(m, c, h)[i])
  {
    SlugNoDashes(c);
    NoHyphens("layout: city_category");
    TaggedNoDashes("title: ", h);
    var link := "permalink: /" + m.slug + "/";
    TaggedNoDashes("permalink: /", m.slug);
    NoHyphens("/");
    NoDashesAppend("permalink: /" + m.slug, "/");
    NoDashesAppend(link, c);
    NoDashesAppend(link + c, "/");
    TaggedNoDashes("city_slug: ", m.slug);
    TaggedNoDashes("city_title: ", m.cityTitle);
    TaggedNoDashes("preposition: ", m.preposition);
    TaggedNoDashes("category: ", c);
    TaggedNoDashes("h1: ", h);
  }

  lemma FrontLinesOneLine(m: CityMeta, c: string, h: string)
    requires CleanMeta(m) && Category(c) && Clean(h)
    ensures forall i | 0 <= i < |FrontLines(m, c, h)| :: '\n' !in FrontLines(m, c, h)[i]
  {
    SlugHasNoBreaks(c);
    assert '\n' !in "title: " + h;
    assert '\n' !in "permalink: /" + m.slug + "/" + c + "/";
    assert '\n' !in "city_slug: " + m.slug;
    assert '\n' !in "city_title: " + m.cityTitle;
    assert '\n' !in "preposition: " + m.preposition;
    assert '\n' !in "category: " + c;
    assert '\n' !in "h1: " + h;
  }

  /** The lines between the two `---` lines join into a block that the
      front-matter pattern takes whole. */
  lemma FrontBody(m: CityMeta, c: string, h: string)
    requires CleanMeta(m) && Category(c) && Clean(h)
    ensures var body := JoinLines(FrontLines(m, c, h));
      body != [] && !IsSpace(body[0]) && !IsSpace(body[|body| - 1]) && NoDashes(body)
  {
    var ls := FrontLines(m, c, h);
    FrontLinesNoDashes(m, c, h);
    NoDashesJoinLines(ls);
    var h1 := "h1: " + h;
    assert h1[|h1| - 1] == h[|h| - 1];
    JoinLinesEnds(ls);
  }

  /** The page starts with its front matter: the lines between the two
      `---` lines. */
  lemma PageFrontMatter(m: CityMeta, c: string)
    requires CleanMeta(m) && Category(c)
    ensures FrontMatter(PageText(m, c)) == Some(JoinLines(FrontLines(m, c, Heading(m, c))))
  {
    var h := Heading(m, c);
    HeadingIsClean(m, c);
    FrontBody(m, c, h);
    FrontMatterOfBlock(JoinLines(FrontLines(m, c, h)), "\n");
  }

  // ---------------------------------------------------------------------
  // What the front matter says

  /** The line at `i` is the first to start with `key:`: every line before
      it differs from `key:` within its first two characters or at the
      `_`-separated word. */
  lemma FrontKey(m: CityMeta, c: string, h: string, i: nat, key: string, value: string)
    requires CleanMeta(m) && Category(c) && Clean(h)
    requires i < 8 && key != [] && '\n' !in key
    requires FrontLines(m, c, h)[i] == key + ": " + value
    requires value != [] && !IsSpace(value[0])
    requires forall j | 0 <= j < i :: !StartsWith(FrontLines(m, c, h)[j], key + ":")
    ensures SearchKey(JoinLines(FrontLines(m, c, h)), key) == Some(value)
  {
    FrontLinesOneLine(m, c, h);
    SearchKeyLines(FrontLines(m, c, h), i, key, value);
  }

  lemma FrontLayout(m: CityMeta, c: string, h: string)
    requires CleanMeta(m) && Category(c) && Clean(h)
    ensures SearchKey(JoinLines(FrontLines(m, c, h)), "layout") == Some("city_category")
  {
    FrontKey(m, c, h, 0, "layout", "city_category");
  }

  lemma FrontTitle(m: CityMeta, c: string, h: string)
    requires CleanMeta(m) && Category(c) && Clean(h)
    ensures SearchKey(JoinLines(FrontLines(m, c, h)), "title") == Some(h)
  {
    var ls := FrontLines(m, c, h);
    NotStartsWith(ls[0], "title:", 0);
    FrontKey(m, c, h, 1, "title", h);
  }

  lemma FrontPermalink(m: CityMeta, c: string, h: string)
    requires CleanMeta(m) && Category(c) && Clean(h)
    ensures SearchKey(JoinLines(FrontLines(m, c, h)), "permalink") == Some("/" + m.slug + "/" + c + "/")
  {
    var ls := FrontLines(m, c, h);
    NotStartsWith(ls[0], "permalink:", 0);
    NotStartsWith(ls[1], "permalink:", 0);
    assert ls[2] == "permalink" + ": " + ("/" + m.slug + "/" + c + "/");
    FrontKey(m, c, h, 2, "permalink", "/" + m.slug + "/" + c + "/");
  }

  lemma FrontCitySlug(m: CityMeta, c: string, h: string)
    requires CleanMeta(m) && Category(c) && Clean(h)
    ensures SearchKey(JoinLines(FrontLines(m, c, h)), "city_slug") == Some(m.slug)
  {
    var ls := FrontLines(m, c, h);
    NotStartsWith(ls[0], "city_slug:", 0);
    NotStartsWith(ls[1], "city_slug:", 0);
    NotStartsWith(ls[2], "city_slug:", 0);
    FrontKey(m, c, h, 3, "city_slug", m.slug);
  }

  lemma FrontCityTitle(m: CityMeta, c: string, h: string)
    requires CleanMeta(m) && Category(c) && Clean(h)
    ensures SearchKey(JoinLines(FrontLines(m, c, h)), "city_title") == Some(m.cityTitle)
  {
    var ls := FrontLines(m, c, h);
    NotStartsWith(ls[0], "city_title:", 0);
    NotStartsWith(ls[1], "city_title:", 0);
    NotStartsWith(ls[2], "city_title:", 0);
    NotStartsWith(ls[3], "city_title:", 5);
    FrontKey(m, c, h, 4, "city_title", m.cityTitle);
  }

  lemma FrontPreposition(m: CityMeta, c: string, h: string)
    requires CleanMeta(m) && Category(c) && Clean(h)
    ensures SearchKey(JoinLines(FrontLines(m, c, h)), "preposition") == Some(m.preposition)
  {
    var ls := FrontLines(m, c, h);
    NotStartsWith(ls[0], "preposition:", 0);
    NotStartsWith(ls[1], "preposition:", 0);
    NotStartsWith(ls[2], "preposition:", 1);
    NotStartsWith(ls[3], "preposition:", 0);
    NotStartsWith(ls[4], "preposition:", 0);
    FrontKey(m, c, h, 5, "preposition", m.preposition);
  }

  lemma FrontCategory(m: CityMeta, c: string, h: string)
    requires CleanMeta(m) && Category(c) && Clean(h)
    ensures SearchKey(JoinLines(FrontLines(m, c, h)), "category") == Some(c)
  {
    var ls := FrontLines(m, c, h);
    NotStartsWith(ls[0], "category:", 0);
    NotStartsWith(ls[1], "category:", 0);
    NotStartsWith(ls[2], "category:", 0);
    NotStartsWith(ls[3], "category:", 1);
    NotStartsWith(ls[4], "category:", 1);
    NotStartsWith(ls[5], "category:", 0);
    FrontKey(m, c, h, 6, "category", c);
  }

  lemma FrontH1(m: CityMeta, c: string, h: string)
    requires CleanMeta(m) && Category(c) && Clean(h)
    ensures SearchKey(JoinLines(FrontLines(m, c, h)), "h1") == Some(h)
  {
    var ls := FrontLines(m, c, h);
    NotStartsWith(ls[0], "h1:", 0);
    NotStartsWith(ls[1], "h1:", 0);
    NotStartsWith(ls[2], "h1:", 0);
    NotStartsWith(ls[3], "h1:", 0);
    NotStartsWith(ls[4], "h1:", 0);
    NotStartsWith(ls[5], "h1:", 0);
    NotStartsWith(ls[6], "h1:", 0);
    FrontKey(m, c, h, 7, "h1", h);
  }

  /** The page names the city by `city_slug`, so a search for `slug:` at the
      start of a line finds nothing. */
  lemma FrontNoSlug(m: CityMeta, c: string, h: string)
    requires CleanMeta(m) && Category(c) && Clean(h)
    ensures SearchKey(JoinLines(FrontLines(m, c, h)), "slug").None?
  {
    var ls := FrontLines(m, c, h);
    FrontLinesOneLine(m, c, h);
    forall j | 0 <= j < |ls| ensures !StartsWith(ls[j], "slug:") {
      NotStartsWith(ls[j], "slug:", 0);
    }
    SearchKeyNoLine(ls, "slug");
  }
}
