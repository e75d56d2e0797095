/** `slugify` and `cat_display` of scripts/gen_city_category_pages.py. */
module Slugs {
  import opened PyText

  /** The characters a slug is made of: lower-case letters, digits and `-`. */
  predicate IsSlugChar(c: char) {
    IsLower(c) || IsDigit(c) || c == '-'
  }

  /** The shape of everything `Slugify` returns. */
  predicate IsSlug(s: string) {
    && (forall i | 0 <= i < |s| :: IsSlugChar(s[i]))
    && NoAdjacent(s, Hyphen)
    && (s == [] || (s[0] != '-' && s[|s| - 1] != '-'))
  }

  /** The text to slugify: `None` stands for Python's `None`, which
      `(s or "")` turns into the empty string. */
  function SlugText(s: Option<string>): string {
    match s
    case None => ""
    case Some(t) => t
  }

  /** `(s or "").strip().lower()`, then `re.sub(r"[^\w\s-]", "", s)`, then
      `re.sub(r"[\s_]+", "-", s)`, then `re.sub(r"-+", "-", s)`, then
      `.strip("-")`. */
  function Slugify(s: Option<string>): (r: string)
    ensures IsSlug(r)
  {
    var squeezed := SqueezeHyphens(DashSeparators(DropSymbols(Normalize(SlugText(s)))));
    StripKeepsNoAdjacent(squeezed, Hyphen, Hyphen);
    Strip(squeezed, Hyphen)
  }

  /** `.strip().lower()` */
  function Normalize(t: string): (r: string)
    ensures forall c | c in r :: !IsUpper(c)
  {
    var stripped := Strip(t, Whitespace);
    var r := Lower(stripped);
    assert forall i | 0 <= i < |r| :: r[i] == ToLowerChar(stripped[i]);
    r
  }

  /** `re.sub(r"[^\w\s-]", "", s)` */
  function DropSymbols(t: string): (r: string)
    requires forall c | c in t :: !IsUpper(c)
    ensures forall c | c in r :: c in t && !IsUpper(c) && (IsWordChar(c) || IsSpace(c) || c == '-')
  {
    Keep(t, WordSpaceHyphen)
  }

  /** `re.sub(r"[\s_]+", "-", s)` */
  function DashSeparators(t: string): (r: string)
    requires forall c | c in t :: !IsUpper(c) && (IsWordChar(c) || IsSpace(c) || c == '-')
    ensures forall c | c in r :: IsSlugChar(c) && (c == '-' || c in t)
  {
    var r := ReplaceRuns(t, SpaceOrUnderscore, '-');
    forall c | c in r ensures IsSlugChar(c) && (c == '-' || c in t) {
      if c != '-' {
        assert c in t && !IsSpace(c) && c != '_';
        assert IsWordChar(c) && !IsUpper(c);
      }
    }
    r
  }

  /** `re.sub(r"-+", "-", s)` */
  function SqueezeHyphens(t: string): (r: string)
    requires forall c | c in t :: IsSlugChar(c)
    ensures forall c | c in r :: IsSlugChar(c) && (c == '-' || c in t)
    ensures NoAdjacent(r, Hyphen)
  {
    ReplaceRunsNoAdjacent(t, Hyphen, '-');
    ReplaceRuns(t, Hyphen, '-')
  }

  lemma StripSlug(s: string)
    requires IsSlug(s)
    ensures Strip(s, Whitespace) == s
  {
  }

  lemma LowerSlug(s: string)
    requires IsSlug(s)
    ensures Lower(s) == s
  {
  }

  lemma NormalizeSlug(s: string)
    requires IsSlug(s)
    ensures Normalize(s) == s
  {
    StripSlug(s);
    LowerSlug(s);
  }

  lemma DropSymbolsSlug(s: string)
    requires IsSlug(s)
    ensures DropSymbols(s) == s
  {
    assert AllIn(s, WordSpaceHyphen);
  }

  lemma DashSeparatorsSlug(s: string)
    requires IsSlug(s)
    ensures DashSeparators(s) == s
  {
    ReplaceRunsOfSingles(s, SpaceOrUnderscore, '-');
    assert ReplaceEach(s, SpaceOrUnderscore, '-') == s;
  }

  /** The last two steps leave a slug unchanged. */
  lemma HyphenStepsSlug(s: string)
    requires IsSlug(s)
    ensures Strip(SqueezeHyphens(s), Hyphen) == s
  {
    ReplaceRunsOfSingles(s, Hyphen, '-');
    assert ReplaceEach(s, Hyphen, '-') == s;
  }

  /** A slug is a fixed point of `Slugify`. */
  lemma SlugIsFixedPoint(s: string)
    requires IsSlug(s)
    ensures Slugify(Some(s)) == s
  {
    NormalizeSlug(s);
    DropSymbolsSlug(s);
    DashSeparatorsSlug(s);
    HyphenStepsSlug(s);
  }

  /** `slugify(slugify(x)) == slugify(x)`. */
  lemma SlugifyIdempotent(s: Option<string>)
    ensures Slugify(Some(Slugify(s))) == Slugify(s)
  {
    SlugIsFixedPoint(Slugify(s));
  }

  /** `None`, the empty string and blank text all slugify to `""`. */
  lemma SlugifyBlank(s: Option<string>)
    requires s.None? || AllIn(s.value, Whitespace)
    ensures Slugify(s) == ""
  {
    assert Normalize(SlugText(s)) == [];
  }

  /** A slug holds neither a line break nor a path separator. */
  lemma SlugHasNoBreaks(c: string)
    requires IsSlug(c)
    ensures '\n' !in c && '\r' !in c && '/' !in c
  {
  }

  /** `c.replace("-", " ").title()`. */
  function CatDisplay(c: string): (r: string)
    ensures |r| == |c|
    ensures '-' !in r
  {
    var spaced := ReplaceChar(c, '-', ' ');
    var r := Title(spaced);
    assert forall i | 0 <= i < |r| :: ToLowerChar(r[i]) == ToLowerChar(spaced[i]);
    r
  }

  /** A character of the display name is whitespace exactly where the
      slug has a `-`. */
  lemma DisplaySpace(c: string, i: nat)
    requires IsSlug(c) && i < |c|
    ensures IsSpace(CatDisplay(c)[i]) <==> c[i] == '-'
  {
    var spaced := ReplaceChar(c, '-', ' ');
    var d := CatDisplay(c);
    assert d == Title(spaced);
    assert ToLowerChar(d[i]) == ToLowerChar(spaced[i]);
    assert IsSlugChar(c[i]);
  }

  lemma DisplayEnds(c: string)
    requires IsSlug(c)
    ensures Strip(CatDisplay(c), Whitespace) == CatDisplay(c)
  {
    var d := CatDisplay(c);
    if d != [] {
      DisplaySpace(c, 0);
      DisplaySpace(c, |c| - 1);
    }
    assert Stripped(d, Whitespace);
  }

  lemma DisplayLower(c: string)
    requires IsSlug(c)
    ensures Lower(CatDisplay(c)) == ReplaceChar(c, '-', ' ')
  {
    var spaced := ReplaceChar(c, '-', ' ');
    var d := CatDisplay(c);
    assert d == Title(spaced);
    assert forall i | 0 <= i < |d| :: Lower(d)[i] == ToLowerChar(spaced[i]) == spaced[i];
  }

  lemma NormalizeDisplay(c: string)
    requires IsSlug(c)
    ensures Normalize(CatDisplay(c)) == ReplaceChar(c, '-', ' ')
  {
    DisplayEnds(c);
    DisplayLower(c);
  }

  lemma DropSymbolsDisplay(c: string)
    requires IsSlug(c)
    ensures DropSymbols(ReplaceChar(c, '-', ' ')) == ReplaceChar(c, '-', ' ')
  {
    assert AllIn(ReplaceChar(c, '-', ' '), WordSpaceHyphen);
  }

  lemma SpacesAreSingle(c: string)
    requires IsSlug(c)
    ensures NoAdjacent(ReplaceChar(c, '-', ' '), SpaceOrUnderscore)
  {
    var spaced := ReplaceChar(c, '-', ' ');
    forall i: nat | i + 1 < |spaced| ensures !PairAt(spaced, i, SpaceOrUnderscore) {
      assert !PairAt(c, i, Hyphen);
    }
  }

  /** Turning each space back into `-` gives the slug again. */
  lemma SpacesBack(c: string)
    requires IsSlug(c)
    ensures ReplaceEach(ReplaceChar(c, '-', ' '), SpaceOrUnderscore, '-') == c
  {
    var r := ReplaceEach(ReplaceChar(c, '-', ' '), SpaceOrUnderscore, '-');
    forall i | 0 <= i < |c| ensures r[i] == c[i] {
      assert IsSlugChar(c[i]);
    }
  }

  lemma DashSeparatorsDisplay(c: string)
    requires IsSlug(c)
    ensures DashSeparators(ReplaceChar(c, '-', ' ')) == c
  {
    var spaced := ReplaceChar(c, '-', ' ');
    DropSymbolsDisplay(c);
    SpacesAreSingle(c);
    ReplaceRunsOfSingles(spaced, SpaceOrUnderscore, '-');
    SpacesBack(c);
  }

  /** The display name of a category slugifies back to the category: the
      name only changes case and turns each single `-` into a space. */
  lemma CatDisplayRoundTrip(c: string)
    requires IsSlug(c)
    ensures Slugify(Some(CatDisplay(c))) == c
  {
    NormalizeDisplay(c);
    DropSymbolsDisplay(c);
    DashSeparatorsDisplay(c);
    HyphenStepsSlug(c);
  }
}
