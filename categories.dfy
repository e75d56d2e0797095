/** `read_categories` of scripts/gen_city_category_pages.py: the category
    list file holds one `- item` line per category. */
module Categories {
  import opened PyText
  import opened Slugs

  /** Where the text of a line ends: before its newline, if it has one. */
  function ContentEnd(line: string): (e: nat)
    ensures e <= |line| && (e == |line| || e == |line| - 1)
    ensures IsLine(line) ==> forall j | 0 <= j < e :: line[j] != '\n'
    ensures e < |line| ==> line[e] == '\n'
  {
    if line != [] && line[|line| - 1] == '\n' then |line| - 1 else |line|
  }

  /** What group 1 of `^\s*-\s*(.+?)\s*$` captures when `re.match` applies
      it to one line of the file, or `None` when the line does not match.

      The first `\s*` must stop right before the `-`, so it takes exactly the
      leading whitespace. The second `\s*` is greedy and `(.+?)` is lazy:
      when the text after the `-` holds a non-whitespace character, the
      group runs from the first to the last such character. When that text
      is whitespace only, the second `\s*` gives back one character for
      `(.+?)` to take: the last one before the line's newline. */
  function ListItem(line: string): (g: Option<string>)
  {
    var dash := SkipSpaces(line, 0);
    var end := ContentEnd(line);
    if dash == |line| || line[dash] != '-' || dash + 1 >= end then None
    else
      var start := SkipSpaces(line, dash + 1);
      if start >= end then Some(line[end - 1..end])
      else Some(line[start..EndOfText(line, |line|)])
  }

  /** `line[p..q]` is a text that `^\s*-\s*(.+?)\s*$` can capture in `line`,
      with the `-` at `i`: whitespace, `-`, whitespace, at least one
      character other than a newline, whitespace up to the end (`$` matches
      at the end or before a final newline, which is whitespace too). */
  predicate ItemSplit(line: string, i: nat, p: nat, q: nat) {
    && i < p < q <= |line|
    && SpacesBetween(line, 0, i)
    && line[i] == '-'
    && SpacesBetween(line, i + 1, p)
    && (forall j | p <= j < q :: line[j] != '\n')
    && SpacesBetween(line, q, |line|)
  }

  /** Of all the ways the pattern can match, the regex engine takes the one
      whose second `\s*` is longest, and then the shortest group. */
  ghost predicate PreferredSplit(line: string, i: nat, p: nat, q: nat) {
    && ItemSplit(line, i, p, q)
    && forall i': nat, p': nat, q': nat | ItemSplit(line, i', p', q') ::
         p' < p || (p' == p && q <= q')
  }

  /** Every split puts the `-` right after the leading whitespace. */
  lemma DashPosition(line: string, i: nat, p: nat, q: nat)
    requires ItemSplit(line, i, p, q)
    ensures i == SkipSpaces(line, 0)
  {
    var d := SkipSpaces(line, 0);
    assert d < |line| ==> !IsSpace(line[d]);
  }

  lemma NoSplit(line: string)
    requires IsLine(line)
    requires var dash := SkipSpaces(line, 0);
      dash == |line| || line[dash] != '-' || dash + 1 >= ContentEnd(line)
    ensures forall i: nat, p: nat, q: nat :: !ItemSplit(line, i, p, q)
  {
    forall i: nat, p: nat, q: nat | ItemSplit(line, i, p, q) ensures false {
      DashPosition(line, i, p, q);
    }
  }

  lemma BlankItemSplit(line: string)
    requires IsLine(line)
    requires var dash := SkipSpaces(line, 0);
      dash < |line| && line[dash] == '-' && dash + 1 < ContentEnd(line)
      && SkipSpaces(line, dash + 1) >= ContentEnd(line)
    ensures var end := ContentEnd(line);
      PreferredSplit(line, SkipSpaces(line, 0), end - 1, end)
  {
    var dash := SkipSpaces(line, 0);
    var end := ContentEnd(line);
    assert SpacesBetween(line, dash + 1, end - 1);
    assert ItemSplit(line, dash, end - 1, end);
    forall i': nat, p': nat, q': nat | ItemSplit(line, i', p', q')
      ensures p' < end - 1 || (p' == end - 1 && end <= q')
    {
      assert line[p'] != '\n';
    }
  }

  lemma TextItemSplit(line: string)
    requires IsLine(line)
    requires var dash := SkipSpaces(line, 0);
      dash < |line| && line[dash] == '-' && dash + 1 < ContentEnd(line)
      && SkipSpaces(line, dash + 1) < ContentEnd(line)
    ensures var dash := SkipSpaces(line, 0);
      PreferredSplit(line, dash, SkipSpaces(line, dash + 1), EndOfText(line, |line|))
  {
    var dash := SkipSpaces(line, 0);
    var start := SkipSpaces(line, dash + 1);
    var q := EndOfText(line, |line|);
    assert !IsSpace(line[start]);
    forall j | start <= j < q ensures line[j] != '\n' {
      if j == |line| - 1 {
        assert !IsSpace(line[q - 1]);
      }
    }
    assert ItemSplit(line, dash, start, q);
    forall i': nat, p': nat, q': nat | ItemSplit(line, i', p', q')
      ensures p' < start || (p' == start && q <= q')
    {
      DashPosition(line, i', p', q');
      assert !IsSpace(line[start]) && !IsSpace(line[q - 1]);
    }
  }

  /** `ListItem` is what the pattern captures: `None` exactly when the line
      does not match, and otherwise the group of the match the regex engine
      prefers. */
  lemma ListItemIsRegexMatch(line: string)
    requires IsLine(line)
    ensures ListItem(line).None? <==> forall i: nat, p: nat, q: nat :: !ItemSplit(line, i, p, q)
    ensures ListItem(line).Some? ==>
      exists i: nat, p: nat, q: nat :: PreferredSplit(line, i, p, q) && ListItem(line).value == line[p..q]
  {
    var dash := SkipSpaces(line, 0);
    var end := ContentEnd(line);
    if dash == |line| || line[dash] != '-' || dash + 1 >= end {
      NoSplit(line);
    } else if SkipSpaces(line, dash + 1) >= end {
      BlankItemSplit(line);
      assert PreferredSplit(line, dash, end - 1, end);
    } else {
      TextItemSplit(line);
      assert PreferredSplit(line, dash, SkipSpaces(line, dash + 1), EndOfText(line, |line|));
    }
  }

  /** What each line of `lines` adds, in order. */
  function Collect(lines: seq<string>, entry: string -> seq<string>): seq<string>
    decreases |lines|
  {
    if lines == [] then []
    else Collect(lines[..|lines| - 1], entry) + entry(lines[|lines| - 1])
  }

  /** Collecting over two runs of lines one after the other gives what the
      first run adds followed by what the second adds. */
  lemma {:induction false} CollectConcat(a: seq<string>, b: seq<string>, entry: string -> seq<string>)
    ensures Collect(a + b, entry) == Collect(a, entry) + Collect(b, entry)
    decreases |b|
  {
    if b == [] {
      assert a + b == a;
    } else {
      var b', last := b[..|b| - 1], b[|b| - 1];
      var ab := a + b;
      assert ab[..|ab| - 1] == a + b';
      assert ab[|ab| - 1] == last;
      calc {
        Collect(ab, entry);
        Collect(a + b', entry) + entry(last);
        { CollectConcat(a, b', entry); }
        Collect(a, entry) + Collect(b', entry) + entry(last);
        Collect(a, entry) + (Collect(b', entry) + entry(last));
      }
    }
  }

  /** When every line adds exactly one value, collecting gives those values
      in order. */
  lemma {:induction false} CollectSingles(lines: seq<string>, entry: string -> seq<string>, out: seq<string>)
    requires |lines| == |out|
    requires forall i | 0 <= i < |lines| :: entry(lines[i]) == [out[i]]
    ensures Collect(lines, entry) == out
    decreases |lines|
  {
    if lines != [] {
      var n := |lines|;
      CollectSingles(lines[..n - 1], entry, out[..n - 1]);
      assert out == out[..n - 1] + [out[n - 1]];
    }
  }

  /** What one line adds to the list: the slug of its item, if it is one. */
  function Entry(line: string): (e: seq<string>)
    ensures |e| <= 1 && (e != [] ==> IsSlug(e[0]))
    ensures e == [] <==> ListItem(line).None?
  {
    match ListItem(line)
    case None => []
    case Some(g) => [Slugify(Some(g))]
  }

  /** The categories that the lines `lines` yield, in order: one slug per
      line the pattern matches. */
  function ItemsOf(lines: seq<string>): seq<string> {
    Collect(lines, Entry)
  }

  /** Every category read is a slug, and a line adds at most one. */
  lemma {:induction false} ItemsOfAreSlugs(lines: seq<string>)
    ensures |ItemsOf(lines)| <= |lines|
    ensures forall i | 0 <= i < |ItemsOf(lines)| :: IsSlug(ItemsOf(lines)[i])
    decreases |lines|
  {
    if lines != [] {
      var init := lines[..|lines| - 1];
      ItemsOfAreSlugs(init);
      var e := Entry(lines[|lines| - 1]);
      assert ItemsOf(lines) == ItemsOf(init) + e;
    }
  }

  /** The loop's step from `lines[..i]` to `lines[..i + 1]`. */
  lemma ItemsOfNext(lines: seq<string>, i: nat)
    requires i < |lines|
    ensures ItemsOf(lines[..i + 1]) == ItemsOf(lines[..i]) + Entry(lines[i])
  {
    assert lines[..i + 1][..i] == lines[..i];
  }

  /** Reading two runs of lines one after the other yields the categories
      of the first run followed by those of the second. */
  lemma ItemsOfConcat(a: seq<string>, b: seq<string>)
    ensures ItemsOf(a + b) == ItemsOf(a) + ItemsOf(b)
  {
    CollectConcat(a, b, Entry);
  }

  /** `read_categories`: `None` stands for a missing file, which yields no
      categories; otherwise the file is read as text line by line. Every
      category is a slug. */
  function CategoriesOf(file: Option<string>): (data: seq<string>)
    ensures forall i | 0 <= i < |data| :: IsSlug(data[i])
    ensures file.None? ==> data == []
  {
    match file
    case None => []
    case Some(raw) =>
      var lines := Lines(UniversalNewlines(raw));
      ItemsOfAreSlugs(lines);
      ItemsOf(lines)
  }

  /** The loop of `read_categories`, appending one slug per matching line. */
  method ReadCategories(file: Option<string>) returns (data: seq<string>)
    ensures data == CategoriesOf(file)
  {
    if file.None? {
      return [];
    }
    var lines := Lines(UniversalNewlines(file.value));
    data := [];
    for i := 0 to |lines|
      invariant data == ItemsOf(lines[..i])
    {
      ItemsOfNext(lines, i);
      var m := ListItem(lines[i]);
      if m.Some? {
        data := data + [Slugify(Some(m.value))];
      }
    }
    assert lines[..|lines|] == lines;
  }

  /** The line `- c` that names category `c`. */
  function ListLine(c: string): string {
    "- " + c + "\n"
  }

  /** A category list written the way the site keeps it: one `- slug` line
      per category. */
  function ListFile(cats: seq<string>): string {
    Concat(ListLines(cats))
  }

  /** Categories that a `- slug` list can hold: slugs, the empty one included. */
  predicate ListableSlugs(cats: seq<string>) {
    forall i | 0 <= i < |cats| :: IsSlug(cats[i])
  }

  lemma ListLineIsWhole(c: string)
    requires IsSlug(c)
    ensures WholeLine(ListLine(c)) && '\r' !in ListLine(c)
  {
    SlugHasNoBreaks(c);
    assert ListLine(c)[..|ListLine(c)| - 1] == "- " + c;
  }

  /** The line `- c` matches, with `c` as its group. */
  lemma ListItemOfListLine(c: string)
    requires IsSlug(c) && c != []
    ensures ListItem(ListLine(c)) == Some(c)
  {
    var line := ListLine(c);
    var n := |line|;
    ListLineIsWhole(c);
    assert line[2] == c[0] && line[n - 2] == c[|c| - 1];
    assert IsSlugChar(c[0]) && IsSlugChar(c[|c| - 1]);
    assert SkipSpaces(line, 0) == 0;
    assert SkipSpaces(line, 2) == 2;
    assert EndOfText(line, n - 1) == n - 1;
    assert line[2..n - 1] == c;
  }

  /** The line `- ` of the empty slug matches too: its group is the space
      after the `-`, and that slugifies to the empty slug again. */
  lemma EmptyListLineEntry()
    ensures ListItem(ListLine("")) == Some(" ")
    ensures Entry(ListLine("")) == [""]
  {
    var line := ListLine("");
    assert line == ['-', ' ', '\n'];
    assert SkipSpaces(line, 0) == 0;
    assert ContentEnd(line) == 2;
    assert SkipSpaces(line, 1) == 3 by {
      assert SkipSpaces(line, 3) == 3;
      assert SkipSpaces(line, 2) == 3;
    }
    assert line[1..2] == " ";
    assert ListItem(line) == Some(" ");
    SlugifyBlank(Some(" "));
  }

  /** The line `- c` contributes `c` to the list. */
  lemma ListLineEntry(c: string)
    requires IsSlug(c)
    ensures Entry(ListLine(c)) == [c]
  {
    if c == [] {
      EmptyListLineEntry();
    } else {
      ListItemOfListLine(c);
      SlugIsFixedPoint(c);
    }
  }

  /** The lines of a category list. */
  function ListLines(cats: seq<string>): (ls: seq<string>)
    ensures |ls| == |cats|
    ensures forall i | 0 <= i < |ls| :: ls[i] == ListLine(cats[i])
  {
    seq(|cats|, i requires 0 <= i < |cats| => ListLine(cats[i]))
  }

  lemma ListLinesWhole(cats: seq<string>)
    requires ListableSlugs(cats)
    ensures forall i | 0 <= i < |cats| :: WholeLine(ListLines(cats)[i])
    ensures forall i | 0 <= i < |cats| :: '\r' !in ListLines(cats)[i]
  {
    forall i | 0 <= i < |cats|
      ensures WholeLine(ListLines(cats)[i])
      ensures '\r' !in ListLines(cats)[i]
    {
      ListLineIsWhole(cats[i]);
    }
  }

  lemma ItemsOfListLines(cats: seq<string>)
    requires ListableSlugs(cats)
    ensures ItemsOf(ListLines(cats)) == cats
  {
    var ls := ListLines(cats);
    forall i | 0 <= i < |ls| ensures Entry(ls[i]) == [cats[i]] {
      ListLineEntry(cats[i]);
    }
    CollectSingles(ls, Entry, cats);
  }

  /** Reading back a category list written as `- slug` lines gives the
      categories in order. */
  lemma CategoriesRoundTrip(cats: seq<string>)
    requires ListableSlugs(cats)
    ensures CategoriesOf(Some(ListFile(cats))) == cats
  {
    var ls := ListLines(cats);
    ItemsOfListLines(cats);
    ListLinesWhole(cats);
    ConcatKeepsOut(ls, '\r');
    LinesOfWholeLines(ls);
  }
}
