# City category pages, modelled in Dafny

`scripts/gen_city_category_pages.py` builds one Markdown page for every pair of
a city and a category of a family-activities site. The steps are:

1. Read the category list `_data/categories.yml`, one `- item` line per
   category. Each item goes through `slugify`.
2. Read each city file `_cities/*.md` in name order, and take the city's
   settings from its first `---` block: `slug`, `title`, `city_title` and
   `preposition`, with fallbacks for the missing ones.
3. Write `category_pages/<city slug>/<category>.md` for each category. Each
   page holds only front matter (layout, title, permalink, city slug, city
   title, preposition, category and heading).

The model has six modules, one per stage of the script:

| file | module | models |
|---|---|---|
| `py_text.dfy` | `PyText` | the parts of Python's `str`, `re` and text-file reading that the script uses, over ASCII |
| `slugify.dfy` | `Slugs` | `slugify` and `cat_display` |
| `categories.dfy` | `Categories` | `read_categories` and the list-item pattern |
| `city_meta.dfy` | `Cities` | `read_city_meta`: the front-matter pattern, the key pattern, the settings loop and the fallbacks |
| `pages.dfy` | `Pages` | the path and the text of one page, and what its front matter says when it is read back |
| `site.dfy` | `Site` | `main`: sorting the city files, the two nested loops and the file tree they write |

Each anchored pattern (the list item of `read_categories`, the front-matter
block and the `key:` line of `read_city_meta`) is modelled as the match that
Python's backtracking engine returns. Next to each model is a lemma stating
that it is that match: `None` exactly when no way of matching exists, and
otherwise the leftmost match, with the group the greedy and lazy quantifiers
choose. The three substitutions of `slugify` are modelled as recursive
functions. Lemmas state what they do to every input:
- `re.sub(r"[^\w\s-]", "", s)` filters character by character;
- `re.sub(r"[\s_]+", "-", s)` and `re.sub(r"-+", "-", s)` leave characters
  outside the class in place and turn each maximal run of the class into one
  character.

The imperative parts are methods proved against those functions:
- the loop of `read_categories` is `Categories.ReadCategories`;
- the settings loop is `Cities.SearchSettings`;
- the fallbacks are `Cities.ReadCityMeta`;
- the two loops of `main` are `Site.WriteCities` and `Site.WriteCityPages`;
- the file system is the class `Site.FileTree`, whose methods update a map
  from paths to texts and a set of created directories.

The main results:
- Every category is a slug.
- `slugify` is idempotent.
- A category list written as `- slug` lines reads back as the same list,
  the empty slug included.
- `cat_display` slugifies back to the category.
- A page's front matter reads back, key by key, to the values written into
  it, for clean settings and a non-empty category.
- After `main`, each city's page for each category holds that page. The
  exception is when a later city in name order has the same slug and so
  overwrites it.

The script has no per-activity input, never deletes a page it wrote in an
earlier run, and rewrites every page even when its text is unchanged. The
model does the same.

## Model

| member | source | states |
|---|---|---|
| PyText.Strip | scripts/gen_city_category_pages.py:9 | `str.strip()` / `str.strip("-")`: neither end of the result is in the stripped class, it holds only characters of the input, it is empty when the input is all in the class, and text whose ends are clean is returned unchanged |
| PyText.TrimStartPadded | scripts/gen_city_category_pages.py:9 | stripping the start removes exactly a leading run of the class |
| PyText.TrimEndPadded | scripts/gen_city_category_pages.py:9 | stripping the end removes exactly a trailing run of the class |
| PyText.StripPadded | scripts/gen_city_category_pages.py:9 | `strip` of padding around a text with clean ends gives that text back |
| PyText.TrimStart | scripts/gen_city_category_pages.py:9 | the front of `strip`: drops a prefix made only of the class, and what is left does not start in the class |
| PyText.TrimEnd | scripts/gen_city_category_pages.py:9 | the back of `strip`: drops a suffix made only of the class, and what is left does not end in the class |
| PyText.ToLowerChar | scripts/gen_city_category_pages.py:9 | the lower-case mapping never yields an upper-case letter, keeps cased, whitespace and word characters in their classes, and leaves every non-upper-case character alone |
| PyText.ToUpperChar | scripts/gen_city_category_pages.py:33 | the upper-case mapping never yields a lower-case letter, leaves non-lower-case characters alone, and agrees with the input once lowered |
| PyText.Lower | scripts/gen_city_category_pages.py:9 | `str.lower()` maps each character through the lower-case mapping, keeping the length |
| PyText.TitleFrom | scripts/gen_city_category_pages.py:33 | title-casing keeps the length and changes only case. Each cased character is lower-cased when the input character before it is cased (`cased` stands for the one before the first), and upper-cased otherwise; uncased characters are left alone |
| PyText.Title | scripts/gen_city_category_pages.py:36 | `str.title()` keeps the length and leaves uncased characters alone. A cased character is lower-cased when the input character before it is cased, and upper-cased when it is the first or follows an uncased one |
| PyText.ReplaceChar | scripts/gen_city_category_pages.py:36 | `str.replace` of one character replaces every occurrence and nothing else |
| PyText.Keep | scripts/gen_city_category_pages.py:10 | `re.sub(r"[^\w\s-]", "", s)` keeps only characters of the input that are in the class, and changes nothing when all are |
| PyText.KeepConcat | scripts/gen_city_category_pages.py:10 | filtering works piece by piece: the filter of `a + b` is the filter of `a` followed by that of `b` |
| PyText.KeepOne | scripts/gen_city_category_pages.py:10 | one character is kept exactly when it is in the class; with `KeepConcat` this fixes the result for every input |
| PyText.ReplaceRuns | scripts/gen_city_category_pages.py:11 | `re.sub(r"<class>+", rep, s)` yields only `rep` and characters of the input outside the class; its first character is `rep` when the input starts inside the class, and the input's first character otherwise |
| PyText.TrimStartAround | scripts/gen_city_category_pages.py:11 | a run stripped from the front stops at the first character outside the class |
| PyText.ReplaceRunsAround | scripts/gen_city_category_pages.py:11-12 | a character outside the class stays, and the runs before and after it are collapsed separately |
| PyText.RunFirst | scripts/gen_city_category_pages.py:11-12 | a leading run becomes one `rep`, and collapsing goes on after it |
| PyText.RunBeforeAround | scripts/gen_city_category_pages.py:11-12 | the case of `ReplaceRunsAround` where the text starts with a run |
| PyText.OtherBeforeAround | scripts/gen_city_category_pages.py:11-12 | the case of `ReplaceRunsAround` where the text starts outside the class |
| PyText.ReplaceRunsOfRun | scripts/gen_city_category_pages.py:11-12 | a non-empty run of the class becomes exactly one `rep`; with `ReplaceRunsAround` this fixes the result for every input |
| PyText.ReplaceRunsNoAdjacent | scripts/gen_city_category_pages.py:12 | when `rep` is in the class, collapsing runs leaves no two neighbours in the class (`-+` → `-` leaves no `--`) |
| PyText.StripKeepsNoAdjacent | scripts/gen_city_category_pages.py:12 | stripping keeps a text free of neighbouring class characters |
| PyText.ReplaceEach | scripts/gen_city_category_pages.py:11 | character-by-character replacement of the class by `rep` |
| PyText.ReplaceRunsOfSingles | scripts/gen_city_category_pages.py:11 | where no two class characters are neighbours, collapsing runs is the same as replacing each character |
| PyText.NoAdjacentSlice | scripts/gen_city_category_pages.py:12 | a slice of a text without neighbouring class characters has none either |
| PyText.IndexOf | scripts/gen_city_category_pages.py:30 | the first occurrence of a character, or `None` when it is absent |
| PyText.IndexOfAt | scripts/gen_city_category_pages.py:30 | an occurrence with none before it is the one found |
| PyText.SkipSpaces | scripts/gen_city_category_pages.py:19 | a greedy `\s*` stops at the first non-whitespace character, after whitespace only |
| PyText.EndOfText | scripts/gen_city_category_pages.py:19 | the text before the trailing whitespace ends in a non-whitespace character |
| PyText.UniversalNewlines | scripts/gen_city_category_pages.py:17 | reading in text mode leaves no `\r`, and text without `\r` is read unchanged |
| PyText.UniversalCrLf | scripts/gen_city_category_pages.py:17 | a `\r\n` pair is read as one `\n` |
| PyText.UniversalLoneCr | scripts/gen_city_category_pages.py:17 | a `\r` that no `\n` follows is read as `\n` |
| PyText.UniversalOther | scripts/gen_city_category_pages.py:17 | any character other than `\r` is read as it is; with `UniversalCrLf` and `UniversalLoneCr` this fixes the reading of every text |
| PyText.WithLineEnds | scripts/gen_city_category_pages.py:17 | a text written with another line end holds no `\n` when that line end holds none |
| PyText.CrLfReadsBack | scripts/gen_city_category_pages.py:17 | a text written with `\r\n` line ends reads back as the text |
| PyText.CrReadsBack | scripts/gen_city_category_pages.py:17 | a text written with lone `\r` line ends reads back as the text |
| PyText.Lines | scripts/gen_city_category_pages.py:18 | iterating over a file yields non-empty lines, each with a newline only at its end, and all but the last end in one |
| PyText.LinesConcat | scripts/gen_city_category_pages.py:18 | the lines put back together give the text |
| PyText.LinesCons | scripts/gen_city_category_pages.py:18 | a leading whole line is the first line read |
| PyText.LinesOfWholeLines | scripts/gen_city_category_pages.py:18 | whole lines written one after another are read back as those lines |
| PyText.ConcatKeepsOut | scripts/gen_city_category_pages.py:18 | a character absent from every line is absent from their concatenation |
| PyText.JoinLinesAppend | scripts/gen_city_category_pages.py:65 | `"\n".join(a + b)` is the join of `a`, a newline, and the join of `b` |
| PyText.JoinLinesLast | scripts/gen_city_category_pages.py:65 | the join ends with the last character of the last line |
| PyText.JoinLinesEnds | scripts/gen_city_category_pages.py:65 | the join starts with the first line's first character and ends with the last line's last |
| PyText.NotStartsWith | scripts/gen_city_category_pages.py:30 | a text that differs from a prefix at some index does not start with it |
| Slugs.Slugify | scripts/gen_city_category_pages.py:8-12 | every result is a slug: lower-case letters, digits and `-`, no `--`, and no `-` at either end |
| Slugs.Normalize | scripts/gen_city_category_pages.py:9 | no upper-case letter is left after `.strip().lower()` |
| Slugs.DropSymbols | scripts/gen_city_category_pages.py:10 | only word characters, whitespace and `-` of the input are left. It is `Keep` over `[\w\s-]`, so `KeepConcat` and `KeepOne` say exactly what is kept and in which order |
| Slugs.DashSeparators | scripts/gen_city_category_pages.py:11 | only slug characters are left, each a `-` or a character of the input. It is `ReplaceRuns` over `[\s_]`, so `ReplaceRunsAround` and `ReplaceRunsOfRun` say that each run becomes one `-` and every other character stays in order |
| Slugs.SqueezeHyphens | scripts/gen_city_category_pages.py:12 | only slug characters are left, and no two `-` are neighbours. It is `ReplaceRuns` over `-`, so `ReplaceRunsAround` and `ReplaceRunsOfRun` say that each run of `-` becomes one and every other character stays in order |
| Slugs.StripSlug | scripts/gen_city_category_pages.py:9 | `.strip()` leaves a slug unchanged |
| Slugs.LowerSlug | scripts/gen_city_category_pages.py:9 | `.lower()` leaves a slug unchanged |
| Slugs.NormalizeSlug | scripts/gen_city_category_pages.py:9 | the first step leaves a slug unchanged |
| Slugs.DropSymbolsSlug | scripts/gen_city_category_pages.py:10 | the second step leaves a slug unchanged |
| Slugs.DashSeparatorsSlug | scripts/gen_city_category_pages.py:11 | the third step leaves a slug unchanged |
| Slugs.HyphenStepsSlug | scripts/gen_city_category_pages.py:12 | the last two steps leave a slug unchanged |
| Slugs.SlugIsFixedPoint | scripts/gen_city_category_pages.py:8-12 | `slugify` returns a slug unchanged |
| Slugs.SlugifyIdempotent | scripts/gen_city_category_pages.py:8-12 | `slugify(slugify(x)) == slugify(x)` for every input, `None` included |
| Slugs.SlugifyBlank | scripts/gen_city_category_pages.py:9 | `None`, the empty text and blank text all give `""` |
| Slugs.SlugHasNoBreaks | scripts/gen_city_category_pages.py:8-12 | a slug holds no newline, no `\r` and no `/` |
| Slugs.CatDisplay | scripts/gen_city_category_pages.py:36 | the display name is as long as the slug and holds no `-` |
| Slugs.DisplaySpace | scripts/gen_city_category_pages.py:36 | the display name has whitespace exactly where the slug has a `-` |
| Slugs.DisplayEnds | scripts/gen_city_category_pages.py:36 | `.strip()` leaves a display name unchanged |
| Slugs.DisplayLower | scripts/gen_city_category_pages.py:36 | the lowered display name is the slug with its `-` turned into spaces |
| Slugs.NormalizeDisplay | scripts/gen_city_category_pages.py:9 | the first step of `slugify` turns a display name into the slug with spaces |
| Slugs.DropSymbolsDisplay | scripts/gen_city_category_pages.py:10 | the second step keeps that text unchanged |
| Slugs.SpacesAreSingle | scripts/gen_city_category_pages.py:11 | that text has no two neighbouring spaces or underscores |
| Slugs.SpacesBack | scripts/gen_city_category_pages.py:11 | turning each of its spaces into `-` gives the slug |
| Slugs.DashSeparatorsDisplay | scripts/gen_city_category_pages.py:11 | the third step turns it back into the slug |
| Slugs.CatDisplayRoundTrip | scripts/gen_city_category_pages.py:36 | `slugify(cat_display(c)) == c` for every slug `c` |
| Categories.ContentEnd | scripts/gen_city_category_pages.py:19 | `$` matches at the end of a line or just before its final newline |
| Categories.DashPosition | scripts/gen_city_category_pages.py:19 | in every match, the `-` comes right after the leading whitespace |
| Categories.NoSplit | scripts/gen_city_category_pages.py:19 | a line without that `-`, or with nothing after it, does not match |
| Categories.BlankItemSplit | scripts/gen_city_category_pages.py:19 | when only whitespace follows the `-`, the engine's match captures the last character before the newline |
| Categories.TextItemSplit | scripts/gen_city_category_pages.py:19 | otherwise it captures the text from the first to the last non-whitespace character |
| Categories.ListItemIsRegexMatch | scripts/gen_city_category_pages.py:19 | `ListItem` is `None` exactly when `re.match` fails, and is otherwise the group of the match the engine prefers |
| Categories.CollectConcat | scripts/gen_city_category_pages.py:18-20 | reading two runs of lines appends what each run yields |
| Categories.CollectSingles | scripts/gen_city_category_pages.py:18-20 | lines that each yield one value yield those values in order |
| Categories.Entry | scripts/gen_city_category_pages.py:19-20 | a line adds at most one category, a slug, and adds none exactly when it does not match |
| Categories.ItemsOfAreSlugs | scripts/gen_city_category_pages.py:18-20 | every category read is a slug, and there are no more categories than lines |
| Categories.ItemsOfNext | scripts/gen_city_category_pages.py:18-20 | one more line appends that line's entry |
| Categories.ItemsOfConcat | scripts/gen_city_category_pages.py:18-20 | categories of consecutive runs of lines are appended in order |
| Categories.CategoriesOf | scripts/gen_city_category_pages.py:14-21 | a missing file yields no categories, and every category is a slug |
| Categories.ReadCategories | scripts/gen_city_category_pages.py:14-21 | the loop appending one slug per matching line returns `CategoriesOf` of the file |
| Categories.ListLineIsWhole | scripts/gen_city_category_pages.py:18 | the line `- c` of a slug is one whole line without `\r` |
| Categories.ListItemOfListLine | scripts/gen_city_category_pages.py:19 | the line `- c` of a non-empty slug matches with group `c` |
| Categories.ListLineEntry | scripts/gen_city_category_pages.py:19-20 | the line `- c` of any slug adds exactly `c`; for the empty slug the line `- ` captures a space, which slugifies to the empty slug |
| Categories.ListLines | scripts/gen_city_category_pages.py:18 | one `- c` line per category, in order |
| Categories.ListLinesWhole | scripts/gen_city_category_pages.py:18 | for any slugs, each of those lines is whole and has no `\r` |
| Categories.ItemsOfListLines | scripts/gen_city_category_pages.py:18-20 | for any slugs, the empty one included, those lines yield the categories in order |
| Categories.CategoriesRoundTrip | scripts/gen_city_category_pages.py:14-21 | a file of `- slug` lines reads back as exactly those slugs, in order, for every list of slugs |
| Cities.DashesFrom | scripts/gen_city_category_pages.py:26 | the first `---` at or after a position, or `None` when there is none |
| Cities.BlockFrom | scripts/gen_city_category_pages.py:26 | the leftmost line-start `---` that has another `---` after it |
| Cities.FrontMatter | scripts/gen_city_category_pages.py:26-28 | the captured block has no whitespace at either end |
| Cities.MatchStartsBlock | scripts/gen_city_category_pages.py:26 | every match starts a block and ends no earlier than the first closing `---` |
| Cities.NoBlockNoMatch | scripts/gen_city_category_pages.py:26 | without a block start, `re.search` finds nothing |
| Cities.BlockIsPreferred | scripts/gen_city_category_pages.py:26 | the block found is the leftmost match, with the shortest lazy group |
| Cities.FrontMatterIsRegexMatch | scripts/gen_city_category_pages.py:26-28 | `FrontMatter` is `None` exactly when the pattern has no match, and is otherwise the stripped text of the match `re.search` returns |
| Cities.ClosingDashes | scripts/gen_city_category_pages.py:26 | after an opening `---` line and a body without `---`, the first `---` is the closing one |
| Cities.MiddleSlice | scripts/gen_city_category_pages.py:26 | the text between the two `---` is the body with its two newlines |
| Cities.FrontMatterAt | scripts/gen_city_category_pages.py:26-28 | a block at the start of the text captures the stripped text up to the closing `---` |
| Cities.BlockAtStart | scripts/gen_city_category_pages.py:26-28 | `---`, a newline, a body without `---`, a newline and `---` give the stripped body between the newlines |
| Cities.FrontMatterOfBlock | scripts/gen_city_category_pages.py:26-28 | a text that opens with such a block gives that body as its front matter |
| Cities.LineEnd | scripts/gen_city_category_pages.py:30 | `$` under `re.M`: the next newline or the end |
| Cities.LastNotNewline | scripts/gen_city_category_pages.py:30 | the last character before a position that `.` can match |
| Cities.ValueOfText | scripts/gen_city_category_pages.py:30 | when text follows `key:`, the engine captures the rest of its line |
| Cities.ValueOfBlank | scripts/gen_city_category_pages.py:30 | when only whitespace follows, it captures the last character that is not a newline, or fails when there is none |
| Cities.ValueOfIsRegexMatch | scripts/gen_city_category_pages.py:30 | `ValueOf` is `None` exactly when `\s*(.+)$` cannot match, and is otherwise the group of the engine's match |
| Cities.SearchKeySkipsLine | scripts/gen_city_category_pages.py:30 | a line not starting with `key:` is passed over |
| Cities.SearchKeyFindsLine | scripts/gen_city_category_pages.py:30 | a line `key: value` yields the value up to the end of its line |
| Cities.LineHead | scripts/gen_city_category_pages.py:30 | the text before the first newline holds no newline |
| Cities.LineEndAfter | scripts/gen_city_category_pages.py:30 | after a head without a newline, `$` falls where the next line break is |
| Cities.SearchKeyFirstLine | scripts/gen_city_category_pages.py:30 | a first line `key: value` yields `value`, whatever follows |
| Cities.SearchKeyLines | scripts/gen_city_category_pages.py:30 | over joined lines, a line `key: value`, where `value` starts with a non-whitespace character, gives `value` when no earlier line starts with `key:` |
| Cities.SearchKeyNoLine | scripts/gen_city_category_pages.py:30 | when no line starts with `key:`, nothing is found |
| Cities.KeyAtIsMatch | scripts/gen_city_category_pages.py:30 | a position is a candidate for `ValueOf` exactly when the whole pattern can match there (`KeyMatchAt`: a line start followed by `key:`, after which `\s*(.+)$` can match the rest of the text, `AfterTag`) |
| Cities.KeyAtShift | scripts/gen_city_category_pages.py:30 | past a newline, the candidates are those of the text after it |
| Cities.KeyAtAfterLine | scripts/gen_city_category_pages.py:30 | when the first line is no candidate, the only candidates lie past its newline, and they are those of the text after it |
| Categories.EmptyListLineEntry | scripts/gen_city_category_pages.py:19-20 | the line `- ` of the empty slug matches with the space as its group and adds the empty slug |
| Cities.SearchKeyFirst | scripts/gen_city_category_pages.py:30 | the search finds nothing when no line start is a candidate, and otherwise the value at the first candidate |
| Cities.SearchKeyAfterLine | scripts/gen_city_category_pages.py:30 | the same when the first line is no candidate |
| Cities.SearchKeyIsRegexMatch | scripts/gen_city_category_pages.py:30 | for any text, `SearchKey` is `None` exactly when the pattern `^key:\s*(.+)$` under `re.M` has no match, and is otherwise the group of the leftmost match with the split the engine prefers |
| Cities.Defaults | scripts/gen_city_category_pages.py:24 | `meta` starts with exactly the four settings, each at its default: `in` for `preposition` and empty otherwise |
| Cities.Setting | scripts/gen_city_category_pages.py:24-31 | without a block a setting keeps its default, and every setting has no whitespace at either end |
| Cities.SettingOf | scripts/gen_city_category_pages.py:31 | a value found becomes its stripped text, and when none is found the entry is the default |
| Cities.CityMetaOf | scripts/gen_city_category_pages.py:23-34 | for a non-empty stem, slug and city title are never empty; a non-empty `slug` setting is kept, and an empty one falls back to the stem |
| Cities.CityMetaFromSettings | scripts/gen_city_category_pages.py:32-33 | the two fallbacks applied to the dictionary give `CityMetaOf` |
| Cities.ReadCityMeta | scripts/gen_city_category_pages.py:23-34 | the dictionary-updating code returns `CityMetaOf` of the file |
| Cities.Put | scripts/gen_city_category_pages.py:31 | a found value overwrites its key, stripped, and nothing else changes; when nothing is found the dictionary is unchanged |
| Cities.AppliedStepOwn | scripts/gen_city_category_pages.py:29-31 | one pass of the loop sets its own key from the default it still held |
| Cities.AppliedStepOthers | scripts/gen_city_category_pages.py:29-31 | one pass of the loop leaves the other keys alone |
| Cities.AppliedSettings | scripts/gen_city_category_pages.py:29-31 | after the loop over the four distinct keys, each holds what its search found (stripped) or its default |
| Cities.AppliedNext | scripts/gen_city_category_pages.py:29-31 | the loop's state after one more key |
| Cities.SearchSettings | scripts/gen_city_category_pages.py:29-31 | the loop over the keys updates the dictionary as `Applied` says |
| Cities.ReadSettings | scripts/gen_city_category_pages.py:24-31 | after the loop, each of the four keys holds `Setting` of the block |
| Cities.NoBlockDefaults | scripts/gen_city_category_pages.py:24-33 | without a front-matter block, the slug is the stem, the title is empty, the city title comes from the stem, and the preposition is `in` |
| Cities.PrepositionDefault | scripts/gen_city_category_pages.py:24-31 | the preposition is `in` unless the block sets it |
| Cities.CityTitleFallback | scripts/gen_city_category_pages.py:33 | an empty `city_title` falls back to `title`, then to the title-cased slug with spaces |
| Pages.JoinFramed | scripts/gen_city_category_pages.py:65 | joining `fm` gives `---`, the joined lines and `---`, each on its own line, ending with a newline |
| Pages.PageText | scripts/gen_city_category_pages.py:52-65 | the text written is the front-matter lines between two `---` lines, ending in a newline |
| Pages.PagePathInjective | scripts/gen_city_category_pages.py:49-51 | two pages share a path only for the same city slug and the same category, since categories hold no `/` |
| Pages.NoHyphens | scripts/gen_city_category_pages.py:52-64 | text without `-` holds no `---` |
| Pages.NoDashesAppend | scripts/gen_city_category_pages.py:52-64 | `---` cannot appear across a seam unless both sides end in `-` |
| Pages.SlugNoDashes | scripts/gen_city_category_pages.py:52-64 | a slug holds no `---` |
| Pages.NoDashesJoinLines | scripts/gen_city_category_pages.py:52-65 | joining lines without `---` by newlines gives no `---` |
| Pages.DisplayIsClean | scripts/gen_city_category_pages.py:36 | a category's display name is non-empty, starts with a non-space, and holds no newline or `---` |
| Pages.SentenceIsClean | scripts/gen_city_category_pages.py:47 | joining clean parts with space-bounded words gives a clean text |
| Pages.KidsIsPlain | scripts/gen_city_category_pages.py:47 | the fixed words of `h1` start and end with a space and hold no `-` or newline |
| Pages.HeadingIsClean | scripts/gen_city_category_pages.py:47 | `h1` is clean for clean settings and a non-empty category: non-empty, no whitespace at its ends, one line, no `---` |
| Pages.StemFallbackNotClean | scripts/gen_city_category_pages.py:32-33 | the fallbacks can give unclean settings: `-paris.md` without front matter gets the slug `-paris` and the city title ` Paris` |
| Pages.TaggedNoDashes | scripts/gen_city_category_pages.py:55-61 | a `key: ` tag followed by a value without `---` holds no `---` |
| Pages.FrontLinesNoDashes | scripts/gen_city_category_pages.py:53-61 | no front-matter line holds `---` |
| Pages.FrontLinesOneLine | scripts/gen_city_category_pages.py:53-61 | no front-matter line holds a newline |
| Pages.FrontBody | scripts/gen_city_category_pages.py:53-61 | the joined front-matter lines are non-empty, have no whitespace at either end, and hold no `---` |
| Pages.PageFrontMatter | scripts/gen_city_category_pages.py:52-65 | the front-matter pattern, applied to a written page, captures exactly its eight lines |
| Pages.FrontKey | scripts/gen_city_category_pages.py:53-61 | the first line that starts with `key:` gives that key's value |
| Pages.FrontLayout | scripts/gen_city_category_pages.py:54 | `layout:` reads back as `city_category` |
| Pages.FrontTitle | scripts/gen_city_category_pages.py:55 | `title:` reads back as `h1` |
| Pages.FrontPermalink | scripts/gen_city_category_pages.py:56 | `permalink:` reads back as `/<slug>/<category>/` |
| Pages.FrontCitySlug | scripts/gen_city_category_pages.py:57 | `city_slug:` reads back as the city slug |
| Pages.FrontCityTitle | scripts/gen_city_category_pages.py:58 | `city_title:` reads back as the city title |
| Pages.FrontPreposition | scripts/gen_city_category_pages.py:59 | `preposition:` reads back as the preposition |
| Pages.FrontCategory | scripts/gen_city_category_pages.py:60 | `category:` reads back as the category |
| Pages.FrontH1 | scripts/gen_city_category_pages.py:61 | `h1:` reads back as `h1` |
| Pages.FrontNoSlug | scripts/gen_city_category_pages.py:57 | the page has no `slug:` line, so the city's slug is read back only through `city_slug` |
| Site.LastIndexOf | scripts/gen_city_category_pages.py:32 | the last occurrence of a character, with none after it, or `None` when it is absent |
| Site.Stem | scripts/gen_city_category_pages.py:32 | `Path.stem` is a prefix of the name |
| Site.StemOfMarkdown | scripts/gen_city_category_pages.py:32 | the stem of `<base>.md` is `<base>`; a file named just `.md` is its own stem |
| Site.Metas | scripts/gen_city_category_pages.py:41-42 | one city read per file, in the files' order |
| Site.NameLeTotal | scripts/gen_city_category_pages.py:41 | any two names are ordered one way or the other |
| Site.NameLeAntisymmetric | scripts/gen_city_category_pages.py:41 | names ordered both ways are equal |
| Site.Insert | scripts/gen_city_category_pages.py:41 | the result is one longer than the list and starts with the new file or with the old first file |
| Site.InsertSorted | scripts/gen_city_category_pages.py:41 | insertion into a sorted list keeps it sorted and adds exactly that file |
| Site.SortByNameSorts | scripts/gen_city_category_pages.py:41 | `sorted` orders the files by name and is a permutation of them |
| Site.PageOf | scripts/gen_city_category_pages.py:49-51 | a page lives at `category_pages/<slug>/<category>.md`, in the directory `category_pages/<slug>` |
| Site.CityPages | scripts/gen_city_category_pages.py:43-65 | the inner loop writes one page per category, in list order |
| Site.FileTree.MakeDirs | scripts/gen_city_category_pages.py:50 | `mkdir(exist_ok=True)` adds the directory and leaves files alone |
| Site.FileTree.WriteText | scripts/gen_city_category_pages.py:65 | `write_text` replaces the file at the path and nothing else |
| Site.WriteCityPages | scripts/gen_city_category_pages.py:43-65 | the inner loop leaves the files as `ApplyWrites` of the city's pages and adds their directories |
| Site.WriteCities | scripts/gen_city_category_pages.py:41-65 | the outer loop leaves the files as `ApplyWrites` of every city's pages in file order, and adds their directories |
| Site.Generate | scripts/gen_city_category_pages.py:38-65 | `main` creates `category_pages`, reads the categories, sorts the files by name, and writes every page in that order; files and directories afterwards are stated exactly |
| Site.AllPagesStep | scripts/gen_city_category_pages.py:41-65 | one more city appends its pages to the writes and its directory to the directories |
| Site.MetasStep | scripts/gen_city_category_pages.py:41-42 | one more file appends its city |
| Site.WriteOne | scripts/gen_city_category_pages.py:49-65 | one more page appends its write and its directory |
| Site.CityPagesStep | scripts/gen_city_category_pages.py:43 | one more category appends its page |
| Site.ApplyWritesConcat | scripts/gen_city_category_pages.py:65 | writing two runs of pages is writing the first, then the second |
| Site.ApplyWritesKeys | scripts/gen_city_category_pages.py:65 | afterwards the files are the earlier ones plus the paths written |
| Site.ApplyWritesUntouched | scripts/gen_city_category_pages.py:65 | a path no page is written to keeps its content, or stays absent |
| Site.ApplyWritesAgree | scripts/gen_city_category_pages.py:65 | a path written at least once, always with the same text, ends with that text |
| Site.LastWriteWins | scripts/gen_city_category_pages.py:65 | a path ends with the text of the last write to it |
| Site.WriteAround | scripts/gen_city_category_pages.py:65 | earlier writes do not matter, and later writes to other paths leave it alone |
| Site.AllPagesConcat | scripts/gen_city_category_pages.py:41-43 | the pages of two runs of cities are appended in order |
| Site.AllPagesMembers | scripts/gen_city_category_pages.py:41-65 | a page is written exactly when it is the page of some city and some category |
| Site.NoCategoriesNoPages | scripts/gen_city_category_pages.py:40-43 | with no categories, nothing is written |
| Site.CityDirs | scripts/gen_city_category_pages.py:49-50 | the directories created are those of the cities' slugs, and none when there are no categories |
| Site.AllPagesAround | scripts/gen_city_category_pages.py:41-43 | the writes are those of the earlier cities, then this city's, then the later ones' |
| Site.OwnPages | scripts/gen_city_category_pages.py:43-51 | a city writes its page for a listed category, and every write of its own to that path is that page |
| Site.OtherCitiesPages | scripts/gen_city_category_pages.py:49-51 | cities with another slug never write to that path |
| Site.WrittenPage | scripts/gen_city_category_pages.py:41-65 | for any page layout that places pages by slug and category, each city's page for a listed category is in the tree at the end, unless a later city shares its slug |
| Site.PageOfCity | scripts/gen_city_category_pages.py:41-65 | the same for the script's own pages: the file holds the page's text |
| Site.GeneratedPage | scripts/gen_city_category_pages.py:38-65 | after `main`, each city's page for each category read holds that page's text, unless a city later in name order shares its slug |

## Left out

- Characters outside ASCII. `\w`, `\s`, `str.isspace`, `lower`, `upper` and `title` are modelled on ASCII only. Other characters count as neither letters, digits nor whitespace, and case mappings leave them unchanged, whereas Python applies the Unicode tables.
- Decoding. Files are taken as already-decoded text (`seq<char>`). Invalid UTF-8 and the resulting `UnicodeDecodeError` are not modelled.
- Writing on a platform whose line separator is not `\n`. The page text is the joined string, as `write_text` writes it on POSIX systems.
- The file system. A path is a string, and `OUT_DIR / x` is `category_pages/` followed by `x`. pathlib normalises paths, and the model does not. A slug from a city's front matter is written as given. So two slugs that pathlib takes to the same directory count as different slugs in the model. Examples are `paris`, `paris/`, `./paris` and `paris/.`. Other slugs go elsewhere: one that holds `/` or `..`, one that is absolute, or one that is empty. For cities with such slugs, `Site.GeneratedPage` does not cover the collisions pathlib causes.
- `mkdir(parents=True)`. Only the directory itself is recorded, not its parents.
- `Path.exists()` on the category file is an `Option`, with `None` for a missing file. A file that exists but cannot be read is not modelled.
- `CITIES_DIR.glob("*.md")`. The matching files are given as a list of names and contents in any order. Which directory entries match the pattern is not modelled.
- `sorted`. Paths in one directory are compared by their names, and that comparison is modelled as Python's string order.
- I/O errors and exceptions raised by the file system.
- `print("Wrote", out)` on line 66. The model has no output stream.
- The unused `yaml` and `os` imports.
- Site.Generate: the outer loop reads each city with `ReadCityMeta` and the inner loop lays out pages with `PageOf`. The loop methods `WriteCities` and `WriteCityPages` take the page layout as a parameter. This keeps their proofs small, and `Generate` passes `PageOf`, so `main`'s behaviour is stated in full.
- Pages.FrontLayout and the other read-back lemmas: these require a city whose slug, city title and preposition are clean, and a non-empty category. A clean value is non-empty, has no whitespace at its ends, stays on one line and holds no `---`; only such a value survives a round trip through a `key: value` line. The values that fall outside come from the fallbacks of lines 32-33. One is a slug taken from a file stem that holds `---`, a newline or whitespace at an end. Another is a city title made from a slug that starts or ends with `-`: `Pages.StemFallbackNotClean` shows that `-paris.md` without front matter gets the city title ` Paris`, which its page's `city_title:` line reads back as `Paris`. The empty category, which `slugify` can produce, is also outside: `main` writes its page, `category_pages/<slug>/.md`. The pages of all these cities are written as the script writes them, and only the read-back lemmas do not cover them.
