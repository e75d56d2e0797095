/** `main` of scripts/gen_city_category_pages.py: one page per city and
    category, written into a file tree in the order of the city files'
    names. */
module Site {
  import opened PyText
  import opened Slugs
  import opened Categories
  import opened Cities
  import opened Pages

  // ---------------------------------------------------------------------
  // The city files

  /** A file of `_cities` that matches `*.md`: its name and its content. */
  datatype CityFile = CityFile(name: string, text: string)

  /** `s.rfind(c)` as an option: the index of the last `c` in `s`. */
  function LastIndexOf(s: string, c: char): (r: Option<nat>)
    ensures r.Some? ==> r.value < |s| && s[r.value] == c
    ensures r.Some? ==> forall j | r.value < j < |s| :: s[j] != c
    ensures r.None? ==> forall j | 0 <= j < |s| :: s[j] != c
    decreases |s|
  {
    if s == [] then None
    else if s[|s| - 1] == c then Some(|s| - 1)
    else LastIndexOf(s[..|s| - 1], c)
  }

  /** `Path.stem` of a file name: the name without its last suffix, where a
      suffix starts at the last `.` that is neither the first nor the last
      character. */
  function Stem(name: string): (r: string)
    ensures StartsWith(name, r)
  {
    match LastIndexOf(name, '.')
    case Some(i) => if 0 < i < |name| - 1 then name[..i] else name
    case None => name
  }

  /** The stem of a Markdown file is its name without `.md`; a file named
      just `.md` is its own stem. */
  lemma StemOfMarkdown(base: string)
    ensures Stem(base + ".md") == if base == [] then ".md" else base
  {
    var name := base + ".md";
    assert name[|name| - 3] == '.' && name[|name| - 2..] == "md";
    assert LastIndexOf(name, '.') == Some(|base|);
    assert name[..|base|] == base;
  }

  /** `read_city_meta` of one file. */
  function MetaOf(f: CityFile): CityMeta {
    CityMetaOf(f.text, Stem(f.name))
  }

  /** The settings of each file, in order, as `read` gives them; `main`
      reads with `MetaOf`. */
  function Metas(files: seq<CityFile>, read: CityFile -> CityMeta): (ms: seq<CityMeta>)
    ensures |ms| == |files|
    ensures forall i | 0 <= i < |files| :: ms[i] == read(files[i])
  {
    seq(|files|, i requires 0 <= i < |files| => read(files[i]))
  }

  // ---------------------------------------------------------------------
  // `sorted`: the files in the order of their names

  /** Python's `<=` on strings: code point by code point, and a prefix
      before the longer string. */
  predicate NameLe(a: string, b: string)
    decreases |a|
  {
    a == [] || (b != [] && (a[0] < b[0] || (a[0] == b[0] && NameLe(a[1..], b[1..]))))
  }

  lemma {:induction false} NameLeTotal(a: string, b: string)
    ensures NameLe(a, b) || NameLe(b, a)
    decreases |a|
  {
    if a != [] && b != [] && a[0] == b[0] {
      NameLeTotal(a[1..], b[1..]);
    }
  }

  lemma {:induction false} NameLeAntisymmetric(a: string, b: string)
    requires NameLe(a, b) && NameLe(b, a)
    ensures a == b
    decreases |a|
  {
    if a != [] && b != [] {
      NameLeAntisymmetric(a[1..], b[1..]);
      assert a == [a[0]] + a[1..] && b == [b[0]] + b[1..];
    }
  }

  predicate SortedByName(fs: seq<CityFile>) {
    forall i | 0 <= i < |fs| - 1 :: NameLe(fs[i].name, fs[i + 1].name)
  }

  /** Puts `f` before the first file whose name is not smaller. */
  function Insert(f: CityFile, fs: seq<CityFile>): (r: seq<CityFile>)
    ensures |r| == |fs| + 1
    ensures r[0] == f || (fs != [] && r[0] == fs[0])
    decreases |fs|
  {
    if fs == [] then [f]
    else if NameLe(f.name, fs[0].name) then [f] + fs
    else [fs[0]] + Insert(f, fs[1..])
  }

  lemma {:induction false} InsertSorted(f: CityFile, fs: seq<CityFile>)
    requires SortedByName(fs)
    ensures SortedByName(Insert(f, fs))
    ensures multiset(Insert(f, fs)) == multiset(fs) + multiset{f}
    decreases |fs|
  {
    if fs != [] && !NameLe(f.name, fs[0].name) {
      var rest := Insert(f, fs[1..]);
      InsertSorted(f, fs[1..]);
      NameLeTotal(f.name, fs[0].name);
      assert NameLe(fs[0].name, rest[0].name);
      assert fs == [fs[0]] + fs[1..];
    }
  }

  /** `sorted(...)` over the city files, by name. */
  function SortByName(fs: seq<CityFile>): seq<CityFile>
    decreases |fs|
  {
    if fs == [] then [] else Insert(fs[0], SortByName(fs[1..]))
  }

  /** The files come out ordered by name and are the same files. */
  lemma {:induction false} SortByNameSorts(fs: seq<CityFile>)
    ensures SortedByName(SortByName(fs))
    ensures multiset(SortByName(fs)) == multiset(fs)
    decreases |fs|
  {
    if fs != [] {
      SortByNameSorts(fs[1..]);
      InsertSorted(fs[0], SortByName(fs[1..]));
      assert fs == [fs[0]] + fs[1..];
    }
  }

  // ---------------------------------------------------------------------
  // The pages and the writes

  /** What `main` writes for one city and one category: the directory it
      creates, the path of the page and its text. */
  datatype Page = Page(dir: string, path: string, text: string)

  function PageOf(m: CityMeta, c: string): (p: Page)
    ensures p.path == PagePath(m.slug, c) && p.dir == CityDir(m.slug)
  {
    Page(CityDir(m.slug), PagePath(m.slug, c), PageText(m, c))
  }

  /** The inner loop: one page per category, in the order of the list.
      `render` lays out a page; `main` uses `PageOf`. */
  function CityPages(m: CityMeta, cats: seq<string>, render: (CityMeta, string) -> Page): (ps: seq<Page>)
    ensures |ps| == |cats|
    ensures forall j | 0 <= j < |cats| :: ps[j] == render(m, cats[j])
  {
    seq(|cats|, j requires 0 <= j < |cats| => render(m, cats[j]))
  }

  /** Both loops: the pages of each city in turn. */
  function AllPages(cats: seq<string>, ms: seq<CityMeta>, render: (CityMeta, string) -> Page): seq<Page>
    decreases |ms|
  {
    if ms == [] then []
    else AllPages(cats, ms[..|ms| - 1], render) + CityPages(ms[|ms| - 1], cats, render)
  }

  /** Each write replaces the file at its path. */
  function ApplyWrites(files: map<string, string>, ps: seq<Page>): map<string, string>
    decreases |ps|
  {
    if ps == [] then files
    else ApplyWrites(files, ps[..|ps| - 1])[ps[|ps| - 1].path := ps[|ps| - 1].text]
  }

  function PathsOf(ps: seq<Page>): set<string> {
    set p | p in ps :: p.path
  }

  function DirsOf(ps: seq<Page>): set<string> {
    set p | p in ps :: p.dir
  }

  // ---------------------------------------------------------------------
  // The file tree

  /** The part of the file system the generator touches: the text of each
      file by path, and the directories created. */
  class FileTree {
    var files: map<string, string>
    var dirs: set<string>

    constructor (files: map<string, string>, dirs: set<string>)
      ensures this.files == files && this.dirs == dirs
    {
      this.files := files;
      this.dirs := dirs;
    }

    /** `Path.mkdir(parents=True, exist_ok=True)`. */
    method MakeDirs(path: string)
      modifies this
      ensures dirs == old(dirs) + {path}
      ensures files == old(files)
    {
      dirs := dirs + {path};
    }

    /** `Path.write_text`. */
    method WriteText(path: string, text: string)
      modifies this
      ensures files == old(files)[path := text]
      ensures dirs == old(dirs)
    {
      files := files[path := text];
    }
  }

  /** The inner loop of `main`: the pages of one city. */
  method WriteCityPages(tree: FileTree, city: CityMeta, cats: seq<string>, render: (CityMeta, string) -> Page)
    modifies tree
    ensures tree.files == ApplyWrites(old(tree.files), CityPages(city, cats, render))
    ensures tree.dirs == old(tree.dirs) + DirsOf(CityPages(city, cats, render))
  {
    ghost var files0, dirs0 := tree.files, tree.dirs;
    for j := 0 to |cats|
      invariant tree.files == ApplyWrites(files0, CityPages(city, cats[..j], render))
      invariant tree.dirs == dirs0 + DirsOf(CityPages(city, cats[..j], render))
    {
      var page := render(city, cats[j]);
      tree.MakeDirs(page.dir);
      tree.WriteText(page.path, page.text);
      WriteOne(files0, dirs0, CityPages(city, cats[..j], render), page);
      CityPagesStep(city, cats, j, render);
    }
    assert cats[..|cats|] == cats;
  }

  /** The outer loop of `main`, over the files in the order given. */
  method WriteCities(tree: FileTree, cats: seq<string>, files: seq<CityFile>, render: (CityMeta, string) -> Page)
    modifies tree
    ensures tree.files == ApplyWrites(old(tree.files), AllPages(cats, Metas(files, MetaOf), render))
    ensures tree.dirs == old(tree.dirs) + DirsOf(AllPages(cats, Metas(files, MetaOf), render))
  {
    ghost var files0, dirs0 := tree.files, tree.dirs;
    for i := 0 to |files|
      invariant tree.files == ApplyWrites(files0, AllPages(cats, Metas(files[..i], MetaOf), render))
      invariant tree.dirs == dirs0 + DirsOf(AllPages(cats, Metas(files[..i], MetaOf), render))
    {
      var city := ReadCityMeta(files[i].text, Stem(files[i].name));
      WriteCityPages(tree, city, cats, render);
      MetasStep(files, i, MetaOf);
      AllPagesStep(files0, dirs0, cats, Metas(files[..i], MetaOf), city, render);
    }
    assert files[..|files|] == files;
  }

  /** `main`, given the content of `_data/categories.yml` (`None` when the
      file is missing) and the `*.md` files of `_cities`. */
  method Generate(tree: FileTree, catsFile: Option<string>, cityFiles: seq<CityFile>)
    modifies tree
    ensures tree.files == ApplyWrites(old(tree.files),
      AllPages(CategoriesOf(catsFile), Metas(SortByName(cityFiles), MetaOf), PageOf))
    ensures tree.dirs == old(tree.dirs) + {OutDir}
      + DirsOf(AllPages(CategoriesOf(catsFile), Metas(SortByName(cityFiles), MetaOf), PageOf))
  {
    tree.MakeDirs(OutDir);
    var cats := ReadCategories(catsFile);
    var sorted := SortByName(cityFiles);
    WriteCities(tree, cats, sorted, PageOf);
  }

  /** One turn of the outer loop adds the pages of one city. */
  lemma AllPagesStep(files: map<string, string>, dirs: set<string>, cats: seq<string>, ms: seq<CityMeta>,
                     m: CityMeta, render: (CityMeta, string) -> Page)
    ensures ApplyWrites(files, AllPages(cats, ms + [m], render))
      == ApplyWrites(ApplyWrites(files, AllPages(cats, ms, render)), CityPages(m, cats, render))
    ensures dirs + DirsOf(AllPages(cats, ms + [m], render))
      == dirs + DirsOf(AllPages(cats, ms, render)) + DirsOf(CityPages(m, cats, render))
  {
    assert (ms + [m])[..|ms|] == ms;
    ApplyWritesConcat(files, AllPages(cats, ms, render), CityPages(m, cats, render));
  }

  lemma MetasStep(files: seq<CityFile>, i: nat, read: CityFile -> CityMeta)
    requires i < |files|
    ensures Metas(files[..i + 1], read) == Metas(files[..i], read) + [read(files[i])]
  {
  }

  /** Writing `a` then `b` is writing `a + b`. */
  lemma {:induction false} ApplyWritesConcat(files: map<string, string>, a: seq<Page>, b: seq<Page>)
    ensures ApplyWrites(files, a + b) == ApplyWrites(ApplyWrites(files, a), b)
    decreases |b|
  {
    if b == [] {
      assert a + b == a;
    } else {
      var n := |b| - 1;
      assert (a + b)[..|a| + n] == a + b[..n];
      ApplyWritesConcat(files, a, b[..n]);
    }
  }

  lemma WriteOne(files: map<string, string>, dirs: set<string>, ps: seq<Page>, p: Page)
    ensures ApplyWrites(files, ps + [p]) == ApplyWrites(files, ps)[p.path := p.text]
    ensures dirs + DirsOf(ps + [p]) == dirs + DirsOf(ps) + {p.dir}
  {
    assert (ps + [p])[..|ps|] == ps;
  }

  lemma CityPagesStep(m: CityMeta, cats: seq<string>, j: nat, render: (CityMeta, string) -> Page)
    requires j < |cats|
    ensures CityPages(m, cats[..j + 1], render) == CityPages(m, cats[..j], render) + [render(m, cats[j])]
  {
  }

  // ---------------------------------------------------------------------
  // What the file tree holds afterwards

  /** Every path written is in the tree, next to the files already there. */
  lemma {:induction false} ApplyWritesKeys(files: map<string, string>, ps: seq<Page>)
    ensures ApplyWrites(files, ps).Keys == files.Keys + PathsOf(ps)
    decreases |ps|
  {
    if ps != [] {
      var init := ps[..|ps| - 1];
      ApplyWritesKeys(files, init);
      assert ps == init + [ps[|ps| - 1]];
      assert PathsOf(ps) == PathsOf(init) + {ps[|ps| - 1].path};
    }
  }

  /** Writes to other paths leave a file alone. */
  lemma {:induction false} ApplyWritesUntouched(files: map<string, string>, ps: seq<Page>, q: string)
    requires forall i | 0 <= i < |ps| :: ps[i].path != q
    ensures q in ApplyWrites(files, ps) <==> q in files
    ensures q in files ==> ApplyWrites(files, ps)[q] == files[q]
    decreases |ps|
  {
    if ps != [] {
      ApplyWritesUntouched(files, ps[..|ps| - 1], q);
    }
  }

  /** A file written at least once, always with the same text, ends up with
      that text, whatever it held before. */
  lemma {:induction false} ApplyWritesAgree(files: map<string, string>, ps: seq<Page>, q: string, t: string)
    requires exists i | 0 <= i < |ps| :: ps[i].path == q
    requires forall i | 0 <= i < |ps| && ps[i].path == q :: ps[i].text == t
    ensures q in ApplyWrites(files, ps) && ApplyWrites(files, ps)[q] == t
    decreases |ps|
  {
    var init := ps[..|ps| - 1];
    if ps[|ps| - 1].path != q {
      var i :| 0 <= i < |ps| && ps[i].path == q;
      assert init[i].path == q;
      ApplyWritesAgree(files, init, q, t);
    }
  }

  /** The last write to a path wins. */
  lemma LastWriteWins(files: map<string, string>, ps: seq<Page>, i: nat)
    requires i < |ps|
    requires forall j | i < j < |ps| :: ps[j].path != ps[i].path
    ensures ps[i].path in ApplyWrites(files, ps)
    ensures ApplyWrites(files, ps)[ps[i].path] == ps[i].text
  {
    var q := ps[i].path;
    var before, after := ps[..i + 1], ps[i + 1..];
    assert ps == before + after;
    ApplyWritesConcat(files, before, after);
    assert before == before[..i] + [ps[i]];
    ApplyWritesUntouched(ApplyWrites(files, before), after, q);
  }

  /** Writes before a run that agrees on `q` do not matter, and writes after
      it that miss `q` leave it alone. */
  lemma WriteAround(files: map<string, string>, first: seq<Page>, mine: seq<Page>, rest: seq<Page>,
                    q: string, t: string)
    requires exists j | 0 <= j < |mine| :: mine[j].path == q
    requires forall j | 0 <= j < |mine| && mine[j].path == q :: mine[j].text == t
    requires forall x | 0 <= x < |rest| :: rest[x].path != q
    ensures q in ApplyWrites(files, first + mine + rest)
    ensures ApplyWrites(files, first + mine + rest)[q] == t
  {
    ApplyWritesConcat(files, first + mine, rest);
    ApplyWritesConcat(files, first, mine);
    ApplyWritesAgree(ApplyWrites(files, first), mine, q, t);
    ApplyWritesUntouched(ApplyWrites(files, first + mine), rest, q);
  }

  /** Writing pages in turn adds up. */
  lemma {:induction false} AllPagesConcat(cats: seq<string>, a: seq<CityMeta>, b: seq<CityMeta>,
                                          render: (CityMeta, string) -> Page)
    ensures AllPages(cats, a + b, render) == AllPages(cats, a, render) + AllPages(cats, b, render)
    decreases |b|
  {
    if b == [] {
      assert a + b == a;
    } else {
      var n := |b| - 1;
      var ab := a + b;
      assert ab[..|ab| - 1] == a + b[..n];
      assert ab[|ab| - 1] == b[n];
      AllPagesConcat(cats, a, b[..n], render);
      calc {
        AllPages(cats, ab, render);
        AllPages(cats, a + b[..n], render) + CityPages(b[n], cats, render);
        AllPages(cats, a, render) + AllPages(cats, b[..n], render) + CityPages(b[n], cats, render);
        AllPages(cats, a, render) + (AllPages(cats, b[..n], render) + CityPages(b[n], cats, render));
      }
    }
  }

  /** The pages written are exactly one per city and category. */
  lemma {:induction false} AllPagesMembers(cats: seq<string>, ms: seq<CityMeta>, render: (CityMeta, string) -> Page)
    ensures forall p :: p in AllPages(cats, ms, render) <==>
      exists k, j | 0 <= k < |ms| && 0 <= j < |cats| :: p == render(ms[k], cats[j])
    decreases |ms|
  {
    if ms != [] {
      var init := ms[..|ms| - 1];
      var m := ms[|ms| - 1];
      AllPagesMembers(cats, init, render);
      forall p ensures p in AllPages(cats, ms, render) <==>
        exists k, j | 0 <= k < |ms| && 0 <= j < |cats| :: p == render(ms[k], cats[j])
      {
        if p in AllPages(cats, ms, render) {
          if p in CityPages(m, cats, render) {
            var j :| 0 <= j < |cats| && CityPages(m, cats, render)[j] == p;
            assert p == render(ms[|ms| - 1], cats[j]);
          } else {
            var k, j :| 0 <= k < |init| && 0 <= j < |cats| && p == render(init[k], cats[j]);
            assert p == render(ms[k], cats[j]);
          }
        }
        if exists k, j | 0 <= k < |ms| && 0 <= j < |cats| :: p == render(ms[k], cats[j]) {
          var k, j :| 0 <= k < |ms| && 0 <= j < |cats| && p == render(ms[k], cats[j]);
          if k == |ms| - 1 {
            assert CityPages(m, cats, render)[j] == p;
          } else {
            assert p == render(init[k], cats[j]);
          }
        }
      }
    }
  }

  /** With no categories nothing is written. */
  lemma NoCategoriesNoPages(ms: seq<CityMeta>, render: (CityMeta, string) -> Page)
    ensures AllPages([], ms, render) == []
  {
    AllPagesMembers([], ms, render);
  }

  /** The directories created are the city directories, one per city, and
      only when there are categories. */
  lemma CityDirs(cats: seq<string>, ms: seq<CityMeta>)
    ensures DirsOf(AllPages(cats, ms, PageOf)) ==
      if cats == [] then {} else set k | 0 <= k < |ms| :: CityDir(ms[k].slug)
  {
    AllPagesMembers(cats, ms, PageOf);
    if cats != [] {
      forall k | 0 <= k < |ms| ensures CityDir(ms[k].slug) in DirsOf(AllPages(cats, ms, PageOf)) {
        assert PageOf(ms[k], cats[0]) in AllPages(cats, ms, PageOf);
      }
    }
  }

  /** The pages of the cities before `i`, then those of city `i`, then
      those of the cities after it. */
  lemma AllPagesAround(cats: seq<string>, ms: seq<CityMeta>, i: nat, render: (CityMeta, string) -> Page)
    requires i < |ms|
    ensures AllPages(cats, ms, render)
      == AllPages(cats, ms[..i], render) + CityPages(ms[i], cats, render) + AllPages(cats, ms[i + 1..], render)
  {
    var m := ms[i];
    assert ms == ms[..i] + [m] + ms[i + 1..];
    AllPagesConcat(cats, ms[..i] + [m], ms[i + 1..], render);
    AllPagesConcat(cats, ms[..i], [m], render);
    assert [m][..0] == [];
  }

  /** `render` puts the page for `m` and `c` at `PagePath(m.slug, c)`,
      as `PageOf` does. */
  ghost predicate PathBySlug(render: (CityMeta, string) -> Page) {
    forall m, c :: render(m, c).path == PagePath(m.slug, c)
  }

  /** Within one city the page for `c` is written at least once, and each
      write to its path is that page. */
  lemma OwnPages(m: CityMeta, cats: seq<string>, c: string, render: (CityMeta, string) -> Page)
    requires PathBySlug(render) && c in cats
    requires forall j | 0 <= j < |cats| :: '/' !in cats[j]
    ensures var mine := CityPages(m, cats, render);
      && (exists j | 0 <= j < |mine| :: mine[j].path == PagePath(m.slug, c))
      && (forall j | 0 <= j < |mine| && mine[j].path == PagePath(m.slug, c) :: mine[j] == render(m, c))
  {
    var mine := CityPages(m, cats, render);
    forall j | 0 <= j < |mine| && mine[j].path == PagePath(m.slug, c) ensures mine[j] == render(m, c) {
      PagePathInjective(m.slug, cats[j], m.slug, c);
    }
    var jc :| 0 <= jc < |cats| && cats[jc] == c;
    assert mine[jc].path == PagePath(m.slug, c);
  }

  /** Cities with another slug never write to the page's path. */
  lemma OtherCitiesPages(cats: seq<string>, later: seq<CityMeta>, slug: string, c: string,
                         render: (CityMeta, string) -> Page)
    requires PathBySlug(render) && '/' !in c
    requires forall j | 0 <= j < |cats| :: '/' !in cats[j]
    requires forall k | 0 <= k < |later| :: later[k].slug != slug
    ensures var rest := AllPages(cats, later, render);
      forall x | 0 <= x < |rest| :: rest[x].path != PagePath(slug, c)
  {
    var rest := AllPages(cats, later, render);
    AllPagesMembers(cats, later, render);
    forall x | 0 <= x < |rest| ensures rest[x].path != PagePath(slug, c) {
      assert rest[x] in rest;
      var k, j :| 0 <= k < |later| && 0 <= j < |cats| && rest[x] == render(later[k], cats[j]);
      if rest[x].path == PagePath(slug, c) {
        PagePathInjective(later[k].slug, cats[j], slug, c);
      }
    }
  }

  /** The page of city `i` for category `c` is in the tree at the end,
      unless a city later in the order has the same slug and so overwrites
      it. Categories hold no `/`, so no other page shares its path. */
  lemma {:induction false} WrittenPage(files: map<string, string>, cats: seq<string>, ms: seq<CityMeta>, i: nat,
                                       c: string, render: (CityMeta, string) -> Page)
    requires PathBySlug(render)
    requires i < |ms| && c in cats
    requires forall j | 0 <= j < |cats| :: '/' !in cats[j]
    requires forall k | i < k < |ms| :: ms[k].slug != ms[i].slug
    ensures PagePath(ms[i].slug, c) in ApplyWrites(files, AllPages(cats, ms, render))
    ensures ApplyWrites(files, AllPages(cats, ms, render))[PagePath(ms[i].slug, c)] == render(ms[i], c).text
  {
    var m := ms[i];
    var q := PagePath(m.slug, c);
    var first := AllPages(cats, ms[..i], render);
    var mine := CityPages(m, cats, render);
    var rest := AllPages(cats, ms[i + 1..], render);
    AllPagesAround(cats, ms, i, render);
    OwnPages(m, cats, c, render);
    OtherCitiesPages(cats, ms[i + 1..], m.slug, c, render);
    WriteAround(files, first, mine, rest, q, render(m, c).text);
  }

  /** What `main` leaves at the page of city `i` for category `c`: the
      page's text, unless a later city has the same slug. */
  lemma PageOfCity(files: map<string, string>, cats: seq<string>, ms: seq<CityMeta>, i: nat, c: string)
    requires i < |ms| && c in cats
    requires forall j | 0 <= j < |cats| :: '/' !in cats[j]
    requires forall k | i < k < |ms| :: ms[k].slug != ms[i].slug
    ensures PagePath(ms[i].slug, c) in ApplyWrites(files, AllPages(cats, ms, PageOf))
    ensures ApplyWrites(files, AllPages(cats, ms, PageOf))[PagePath(ms[i].slug, c)] == PageText(ms[i], c)
  {
    WrittenPage(files, cats, ms, i, c, PageOf);
  }

  /** After `Generate`, each city's page for each listed category holds
      that page, unless a city later in name order shares its slug. */
  lemma GeneratedPage(files: map<string, string>, catsFile: Option<string>, cityFiles: seq<CityFile>,
                      i: nat, c: string)
    requires var ms := Metas(SortByName(cityFiles), MetaOf);
      && i < |ms| && c in CategoriesOf(catsFile)
      && forall k | i < k < |ms| :: ms[k].slug != ms[i].slug
    ensures var ms := Metas(SortByName(cityFiles), MetaOf);
      var out := ApplyWrites(files, AllPages(CategoriesOf(catsFile), ms, PageOf));
      PagePath(ms[i].slug, c) in out && out[PagePath(ms[i].slug, c)] == PageText(ms[i], c)
  {
    var cats := CategoriesOf(catsFile);
    forall j | 0 <= j < |cats| ensures '/' !in cats[j] {
      SlugHasNoBreaks(cats[j]);
    }
    PageOfCity(files, cats, Metas(SortByName(cityFiles), MetaOf), i, c);
  }
}
