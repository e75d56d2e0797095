/** `read_city_meta` of scripts/gen_city_category_pages.py: the settings of
    one city, read from the first `---` block of its Markdown file. */
module Cities {
  import opened PyText

  // ---------------------------------------------------------------------
  // The front-matter block: `re.search(r"^---\s*(.*?)\s*---", text, re.S | re.M)`

  /** `t[k..]` starts with `---`. */
  predicate DashesAt(t: string, k: nat) {
    k + 3 <= |t| && t[k] == '-' && t[k + 1] == '-' && t[k + 2] == '-'
  }

  /** Where `^` matches under `re.M`: at the start and after each newline. */
  predicate LineStart(t: string, j: nat) {
    j == 0 || (j <= |t| && t[j - 1] == '\n')
  }

  /** An opening `---`: at the start of a line. */
  predicate Opening(t: string, s: nat) {
    LineStart(t, s) && DashesAt(t, s)
  }

  /** The first `---` at or after `j`, wherever it is on its line. */
  function DashesFrom(t: string, j: nat): (r: Option<nat>)
    ensures r.Some? ==> j <= r.value && DashesAt(t, r.value)
    ensures forall k: nat | j <= k && (r.None? || k < r.value) :: !DashesAt(t, k)
    decreases |t| - j
  {
    if j + 3 > |t| then None
    else if DashesAt(t, j) then Some(j)
    else DashesFrom(t, j + 1)
  }

  /** The pattern can start at `s`: an opening `---` with another `---`
      somewhere after it. */
  predicate BlockAt(t: string, s: nat) {
    Opening(t, s) && DashesFrom(t, s + 3).Some?
  }

  /** The leftmost position at or after `j` where the pattern matches. */
  function BlockFrom(t: string, j: nat): (r: Option<nat>)
    ensures r.Some? ==> j <= r.value && BlockAt(t, r.value)
    ensures forall s: nat | j <= s && (r.None? || s < r.value) :: !BlockAt(t, s)
    decreases |t| - j
  {
    if j + 3 > |t| then None
    else if BlockAt(t, j) then Some(j)
    else BlockFrom(t, j + 1)
  }

  /** Group 1 of the front-matter pattern, or `None` when it does not match.

      The match starts at the first opening `---` that has another `---`
      after it. The lazy `(.*?)` makes the match end at the first `---`
      after the opening one; the greedy `\s*` on either side leave the
      group without whitespace at its ends, so the group is the text in
      between, stripped. */
  function FrontMatter(text: string): (fm: Option<string>)
    ensures fm.Some? ==> Stripped(fm.value, Whitespace)
  {
    match BlockFrom(text, 0)
    case None => None
    case Some(s) =>
      var k := DashesFrom(text, s + 3).value;
      Some(Strip(text[s + 3..k], Whitespace))
  }

  /** A match of the pattern: an opening `---` at `s` and a `---` at `k`. */
  predicate BlockMatch(t: string, s: nat, k: nat) {
    Opening(t, s) && s + 3 <= k && DashesAt(t, k)
  }

  /** The match `re.search` reports: the leftmost start, then the shortest
      group. */
  ghost predicate PreferredBlock(t: string, s: nat, k: nat) {
    && BlockMatch(t, s, k)
    && forall s': nat, k': nat | BlockMatch(t, s', k') :: s < s' || (s == s' && k <= k')
  }

  lemma MatchStartsBlock(t: string, s: nat, k: nat)
    requires BlockMatch(t, s, k)
    ensures BlockAt(t, s) && DashesFrom(t, s + 3).value <= k
  {
  }

  lemma NoBlockNoMatch(t: string)
    requires BlockFrom(t, 0).None?
    ensures forall s: nat, k: nat :: !BlockMatch(t, s, k)
  {
    forall s: nat, k: nat ensures !BlockMatch(t, s, k) {
      if Opening(t, s) && s + 3 <= k {
        assert !BlockAt(t, s);
      }
    }
  }

  lemma BlockIsPreferred(t: string)
    requires BlockFrom(t, 0).Some?
    ensures var s := BlockFrom(t, 0).value;
      PreferredBlock(t, s, DashesFrom(t, s + 3).value)
  {
    var s := BlockFrom(t, 0).value;
    var k := DashesFrom(t, s + 3).value;
    forall s': nat, k': nat | BlockMatch(t, s', k') ensures s < s' || (s == s' && k <= k') {
      MatchStartsBlock(t, s', k');
    }
  }

  /** `FrontMatter` is `None` exactly when the pattern has no match, and is
      otherwise the stripped text of the match `re.search` reports. */
  lemma FrontMatterIsRegexMatch(t: string)
    ensures FrontMatter(t).None? <==> forall s: nat, k: nat :: !BlockMatch(t, s, k)
    ensures FrontMatter(t).Some? ==>
      exists s: nat, k: nat :: PreferredBlock(t, s, k) && FrontMatter(t).value == Strip(t[s + 3..k], Whitespace)
  {
    if BlockFrom(t, 0).None? {
      NoBlockNoMatch(t);
    } else {
      var s := BlockFrom(t, 0).value;
      BlockIsPreferred(t);
      assert PreferredBlock(t, s, DashesFrom(t, s + 3).value);
    }
  }

  /** No `---` anywhere in `t`. */
  predicate NoDashes(t: string) {
    forall k: nat | k < |t| :: !DashesAt(t, k)
  }

  /** In `a + body + b + post`, where `a` ends in a newline, `b` is a
      newline and `---`, and the body holds no `---`, the first `---` from
      index 3 on is the one in `b`. */
  lemma ClosingDashes(a: string, body: string, b: string, post: string)
    requires |a| == 4 && a[3] == '\n'
    requires |b| == 4 && b[0] == '\n' && b[1] == '-' && b[2] == '-' && b[3] == '-'
    requires NoDashes(body)
    ensures DashesFrom(a + body + b + post, 3) == Some(|body| + 5)
  {
    var t := a + body + b + post;
    var k := |body| + 5;
    forall j: nat | 3 <= j < k ensures !DashesAt(t, j) {
      if 4 <= j && j + 3 <= k - 1 {
        assert t[j] == body[j - 4] && t[j + 1] == body[j - 3] && t[j + 2] == body[j - 2];
        assert !DashesAt(body, j - 4);
      } else if j == 3 {
        assert t[3] == '\n';
      } else {
        assert t[k - 1] == '\n';
      }
    }
    assert t[k] == '-' && t[k + 1] == '-' && t[k + 2] == '-';
    assert DashesAt(t, k);
    var r := DashesFrom(t, 3);
    assert r.Some? && r.value <= k;
  }

  /** The text between the last character of `a` and the first of `b`. */
  lemma MiddleSlice(a: string, body: string, b: string, post: string)
    requires |a| == 4 && |b| == 4
    ensures (a + body + b + post)[3..|body| + 5] == [a[3]] + body + [b[0]]
  {
    var t := a + body + b + post;
    var r := [a[3]] + body + [b[0]];
    assert |t[3..|body| + 5]| == |r|;
    forall i | 0 <= i < |r| ensures t[3..|body| + 5][i] == r[i] {
      if 0 < i <= |body| {
        assert r[i] == body[i - 1];
      }
    }
  }

  /** A match that starts at the start of the text. */
  lemma FrontMatterAt(t: string, k: nat)
    requires BlockFrom(t, 0) == Some(0) && DashesFrom(t, 3) == Some(k)
    ensures 3 <= k <= |t| && FrontMatter(t) == Some(Strip(t[3..k], Whitespace))
  {
  }

  /** In `a + body + b + post`, with `a` a `---` line and `b` a newline
      and `---`, the match spans from the start to the `---` in `b`. */
  lemma BlockAtStart(a: string, body: string, b: string, post: string)
    requires |a| == 4 && a[0] == '-' && a[1] == '-' && a[2] == '-' && a[3] == '\n'
    requires |b| == 4 && b[0] == '\n' && b[1] == '-' && b[2] == '-' && b[3] == '-'
    requires NoDashes(body)
    ensures var t := a + body + b + post;
      FrontMatter(t) == Some(Strip([a[3]] + body + [b[0]], Whitespace))
  {
    var t := a + body + b + post;
    var k := |body| + 5;
    assert BlockFrom(t, 0) == Some(0) && DashesFrom(t, 3) == Some(k) by {
      ClosingDashes(a, body, b, post);
      assert t[0] == '-' && t[1] == '-' && t[2] == '-';
    }
    FrontMatterAt(t, k);
    MiddleSlice(a, body, b, post);
  }

  /** A file that starts with `---`, a line-separated body and `---` has
      that body as its front matter, when the body holds no `---` and has no
      whitespace at its ends. */
  lemma FrontMatterOfBlock(body: string, post: string)
    requires body != [] && !IsSpace(body[0]) && !IsSpace(body[|body| - 1])
    requires NoDashes(body)
    ensures FrontMatter("---\n" + body + "\n---" + post) == Some(body)
  {
    BlockAtStart("---\n", body, "\n---", post);
    StripPadded("\n", body, "\n", Whitespace);
  }

  // ---------------------------------------------------------------------
  // Settings: `re.search(rf"^{k}:\s*(.+)$", fm, re.M)`

  /** The first index at or after `from` that holds a newline, or `|s|`. */
  function LineEnd(s: string, from: nat): (r: nat)
    requires from <= |s|
    ensures from <= r <= |s|
    ensures forall j | from <= j < r :: s[j] != '\n'
    ensures r < |s| ==> s[r] == '\n'
    decreases |s| - from
  {
    if from == |s| || s[from] == '\n' then from else LineEnd(s, from + 1)
  }

  /** The last index below `hi` that does not hold a newline. */
  function LastNotNewline(s: string, hi: nat): (r: Option<nat>)
    requires hi <= |s|
    ensures r.Some? ==> r.value < hi && s[r.value] != '\n'
    ensures forall j | (if r.Some? then r.value + 1 else 0) <= j < hi :: s[j] == '\n'
    decreases hi
  {
    if hi == 0 then None
    else if s[hi - 1] != '\n' then Some(hi - 1)
    else LastNotNewline(s, hi - 1)
  }

  /** What `\s*(.+)$` captures at the start of `rest`, the text after
      `key:`. The greedy `\s*` may run over newlines. When it reaches a
      character that is not whitespace, `(.+)` takes the rest of that line.
      When all of `rest` is whitespace, `\s*` gives back characters until
      `(.+)` can take one that is not a newline, and `$` then holds right
      after it. */
  function ValueOf(rest: string): (v: Option<string>) {
    var a := SkipSpaces(rest, 0);
    if a < |rest| then Some(rest[a..LineEnd(rest, a)])
    else match LastNotNewline(rest, a)
      case None => None
      case Some(j) => Some(rest[j..j + 1])
  }

  /** `rest[x..e]` is a text that `\s*(.+)$` can capture: whitespace before
      it, no newline in it, and the end of a line right after it. */
  predicate ValueSplit(rest: string, x: nat, e: nat) {
    && x < e <= |rest|
    && SpacesBetween(rest, 0, x)
    && (forall j | x <= j < e :: rest[j] != '\n')
    && (e == |rest| || rest[e] == '\n')
  }

  /** The split the regex engine takes: the longest `\s*`, then the longest
      group. */
  ghost predicate PreferredValue(rest: string, x: nat, e: nat) {
    && ValueSplit(rest, x, e)
    && forall x': nat, e': nat | ValueSplit(rest, x', e') :: x' < x || (x' == x && e' <= e)
  }

  lemma ValueOfText(rest: string)
    requires SkipSpaces(rest, 0) < |rest|
    ensures var a := SkipSpaces(rest, 0);
      PreferredValue(rest, a, LineEnd(rest, a))
  {
    var a := SkipSpaces(rest, 0);
    var e := LineEnd(rest, a);
    assert !IsSpace(rest[a]);
    assert ValueSplit(rest, a, e);
    forall x': nat, e': nat | ValueSplit(rest, x', e') ensures x' < a || (x' == a && e' <= e) {
      assert x' <= a;
      assert e < |rest| ==> rest[e] == '\n';
    }
  }

  lemma ValueOfBlank(rest: string)
    requires SkipSpaces(rest, 0) == |rest|
    ensures LastNotNewline(rest, |rest|).None? ==> forall x: nat, e: nat :: !ValueSplit(rest, x, e)
    ensures LastNotNewline(rest, |rest|).Some? ==>
      var j := LastNotNewline(rest, |rest|).value;
      PreferredValue(rest, j, j + 1)
  {
    match LastNotNewline(rest, |rest|)
    case None =>
      forall x: nat, e: nat ensures !ValueSplit(rest, x, e) {
        if x < e <= |rest| {
          assert rest[x] == '\n';
        }
      }
    case Some(j) =>
      assert j + 1 < |rest| ==> rest[j + 1] == '\n';
      assert ValueSplit(rest, j, j + 1);
      forall x': nat, e': nat | x' < e' <= |rest| && (j < x' || (x' == j && j + 1 < e'))
        ensures !ValueSplit(rest, x', e')
      {
        if j < x' {
          assert rest[x'] == '\n';
        } else {
          assert rest[j + 1] == '\n';
        }
      }
  }

  /** `ValueOf` is `None` exactly when `\s*(.+)$` cannot match, and is
      otherwise the group of the match the regex engine takes. */
  lemma ValueOfIsRegexMatch(rest: string)
    ensures ValueOf(rest).None? <==> forall x: nat, e: nat :: !ValueSplit(rest, x, e)
    ensures ValueOf(rest).Some? ==>
      exists x: nat, e: nat :: PreferredValue(rest, x, e) && ValueOf(rest).value == rest[x..e]
  {
    var a := SkipSpaces(rest, 0);
    if a < |rest| {
      ValueOfText(rest);
      assert PreferredValue(rest, a, LineEnd(rest, a));
    } else {
      ValueOfBlank(rest);
      if LastNotNewline(rest, a).Some? {
        var j := LastNotNewline(rest, a).value;
        assert PreferredValue(rest, j, j + 1);
      }
    }
  }

  /** Group 1 of `^key:\s*(.+)$` searched for in `t` under `re.M`: lines are
      tried in order, and the first one that starts with `key:` and where
      the rest of the pattern matches gives the value. */
  function SearchKey(t: string, key: string): (v: Option<string>)
    decreases |t|
  {
    var tag := key + ":";
    if StartsWith(t, tag) && ValueOf(t[|tag|..]).Some? then ValueOf(t[|tag|..])
    else match IndexOf(t, '\n')
      case None => None
      case Some(n) => SearchKey(t[n + 1..], key)
  }

  /** A line that does not start with `key:` is passed over. */
  lemma SearchKeySkipsLine(line: string, rest: string, key: string)
    requires '\n' !in line && '\n' !in key
    requires !StartsWith(line, key + ":")
    ensures SearchKey(line + "\n" + rest, key) == SearchKey(rest, key)
  {
    var t := line + "\n" + rest;
    var tag := key + ":";
    assert t[..|line|] == line;
    if |tag| <= |line| {
      assert t[..|tag|] == line[..|tag|];
    } else if |tag| <= |t| {
      assert t[..|tag|][|line|] == '\n';
      assert tag[|line|] != '\n';
    }
    assert !StartsWith(t, tag);
    IndexOfAt(t, '\n', |line|);
    assert t[|line| + 1..] == rest;
  }

  /** A line `key: value` gives `value`, when the value starts with a
      character that is not whitespace and stays on its line. */
  lemma SearchKeyFindsLine(key: string, value: string, rest: string)
    requires value != [] && !IsSpace(value[0]) && '\n' !in value
    ensures SearchKey(key + ": " + value + rest, key) == Some(value + LineHead(rest))
  {
    var t := key + ": " + value + rest;
    var tag := key + ":";
    var after := t[|tag|..];
    assert StartsWith(t, tag) && after == " " + value + rest by {
      assert t[..|tag|] == tag;
    }
    assert ValueOf(after) == Some(value + LineHead(rest)) by {
      assert SkipSpaces(after, 1) == 1;
      LineEndAfter(" " + value, rest);
      assert after[1..LineEnd(after, 1)] == value + LineHead(rest);
    }
  }

  /** The part of `t` before its first newline. */
  function LineHead(t: string): (h: string)
    ensures '\n' !in h
  {
    match IndexOf(t, '\n')
    case None => t
    case Some(n) => t[..n]
  }

  lemma LineEndAfter(head: string, rest: string)
    requires head != [] && '\n' !in head
    ensures LineEnd(head + rest, 1) == |head| + |LineHead(rest)|
    ensures (head + rest)[|head|..LineEnd(head + rest, 1)] == LineHead(rest)
  {
    var t := head + rest;
    var e := LineEnd(t, 1);
    match IndexOf(rest, '\n')
    case None =>
      assert forall j | 1 <= j < |t| :: t[j] != '\n' by {
        assert forall j | |head| <= j < |t| :: t[j] == rest[j - |head|];
      }
    case Some(n) =>
      assert t[|head| + n] == '\n';
      assert forall j | 1 <= j < |head| + n :: t[j] != '\n' by {
        assert forall j | |head| <= j < |head| + n :: t[j] == rest[..n][j - |head|];
      }
  }

  /** A first line `key: value` gives `value`, whatever lines follow. */
  lemma SearchKeyFirstLine(ls: seq<string>, key: string, value: string)
    requires ls != [] && ls[0] == key + ": " + value
    requires value != [] && !IsSpace(value[0]) && '\n' !in value
    ensures SearchKey(JoinLines(ls), key) == Some(value)
  {
    if |ls| == 1 {
      SearchKeyFindsLine(key, value, "");
      assert LineHead("") == "";
      assert value + LineHead("") == value;
      assert key + ": " + value + "" == ls[0];
      assert JoinLines(ls) == ls[0];
    } else {
      var rest := "\n" + JoinLines(ls[1..]);
      SearchKeyFindsLine(key, value, rest);
      assert JoinLines(ls) == key + ": " + value + rest;
      assert IndexOf(rest, '\n') == Some(0);
      assert LineHead(rest) == [];
      assert value + LineHead(rest) == value;
    }
  }

  /** Over lines joined by newlines, the search finds the first line that
      starts with `key:`. */
  lemma {:induction false} SearchKeyLines(ls: seq<string>, i: nat, key: string, value: string)
    requires i < |ls| && '\n' !in key
    requires forall j | 0 <= j < |ls| :: '\n' !in ls[j]
    requires forall j | 0 <= j < i :: !StartsWith(ls[j], key + ":")
    requires ls[i] == key + ": " + value
    requires value != [] && !IsSpace(value[0])
    ensures SearchKey(JoinLines(ls), key) == Some(value)
    decreases i
  {
    if i == 0 {
      assert forall j | 0 <= j < |value| :: value[j] == ls[0][|key| + 2 + j];
      SearchKeyFirstLine(ls, key, value);
    } else {
      SearchKeySkipsLine(ls[0], JoinLines(ls[1..]), key);
      SearchKeyLines(ls[1..], i - 1, key, value);
    }
  }

  /** Over lines none of which starts with `key:`, the search finds
      nothing. */
  lemma {:induction false} SearchKeyNoLine(ls: seq<string>, key: string)
    requires '\n' !in key
    requires forall j | 0 <= j < |ls| :: '\n' !in ls[j] && !StartsWith(ls[j], key + ":")
    ensures SearchKey(JoinLines(ls), key).None?
    decreases |ls|
  {
    if |ls| == 1 {
      assert !StartsWith(ls[0], key + ":");
      assert IndexOf(ls[0], '\n').None?;
    } else if |ls| > 1 {
      SearchKeySkipsLine(ls[0], JoinLines(ls[1..]), key);
      SearchKeyNoLine(ls[1..], key);
    } else {
      assert !StartsWith([], key + ":");
    }
  }

  /** The text after `key:` when it stands at `j`. */
  function AfterTag(t: string, key: string, j: nat): (rest: string)
    requires j + |key| + 1 <= |t|
    ensures |rest| == |t| - j - |key| - 1
  {
    t[j + |key| + 1..]
  }

  /** `^key:\s*(.+)$` can match at `j` under `re.M`: `j` starts a line, the
      text there starts with `key:`, and `\s*(.+)$` can match after it. */
  ghost predicate KeyMatchAt(t: string, key: string, j: nat) {
    && j <= |t| && LineStart(t, j) && StartsWith(t[j..], key + ":")
    && exists x: nat, e: nat :: ValueSplit(AfterTag(t, key, j), x, e)
  }

  /** `KeyMatchAt` with the value part decided by `ValueOf`. */
  predicate KeyAt(t: string, key: string, j: nat) {
    && j <= |t| && LineStart(t, j) && StartsWith(t[j..], key + ":")
    && ValueOf(AfterTag(t, key, j)).Some?
  }

  lemma KeyAtIsMatch(t: string, key: string, j: nat)
    ensures KeyAt(t, key, j) <==> KeyMatchAt(t, key, j)
  {
    if j <= |t| && StartsWith(t[j..], key + ":") {
      ValueOfIsRegexMatch(AfterTag(t, key, j));
    }
  }

  /** Past the newline at `n`, the candidates in `t` are those of the text
      after it. */
  lemma KeyAtShift(t: string, key: string, n: nat, j: nat)
    requires n < |t| && t[n] == '\n' && n < j <= |t|
    ensures KeyAt(t, key, j) == KeyAt(t[n + 1..], key, j - n - 1)
  {
    var u := t[n + 1..];
    assert t[j..] == u[j - n - 1..];
    if j > n + 1 {
      assert t[j - 1] == u[j - n - 2];
    }
    if StartsWith(t[j..], key + ":") {
      assert AfterTag(t, key, j) == AfterTag(u, key, j - n - 1);
    }
  }

  /** `j` is the first candidate in `t`, and the search gives its value. */
  predicate FirstKeyAt(t: string, key: string, j: nat, v: Option<string>) {
    && KeyAt(t, key, j) && (forall j': nat | j' < j :: !KeyAt(t, key, j'))
    && v == ValueOf(AfterTag(t, key, j))
  }

  /** `SearchKey` tries the line starts in order and stops at the first
      candidate. */
  lemma {:induction false} SearchKeyFirst(t: string, key: string)
    ensures SearchKey(t, key).None? ==> forall j: nat | j <= |t| :: !KeyAt(t, key, j)
    ensures SearchKey(t, key).Some? ==> exists j: nat | j <= |t| :: FirstKeyAt(t, key, j, SearchKey(t, key))
    decreases |t|, 1
  {
    var tag := key + ":";
    assert t[0..] == t;
    if StartsWith(t, tag) && ValueOf(t[|tag|..]).Some? {
      assert KeyAt(t, key, 0);
      assert FirstKeyAt(t, key, 0, SearchKey(t, key));
    } else {
      assert !KeyAt(t, key, 0);
      match IndexOf(t, '\n')
      case None =>
        forall j: nat | 0 < j <= |t| ensures !LineStart(t, j) {
          assert t[j - 1] in t;
        }
      case Some(n) =>
        SearchKeyAfterLine(t, key, n);
    }
  }

  /** When the first line, ending with the newline at `n`, is no
      candidate, the candidates of `t` are those of the text after it. */
  lemma KeyAtAfterLine(t: string, key: string, n: nat, j: nat)
    requires !KeyAt(t, key, 0)
    requires n < |t| && t[n] == '\n' && '\n' !in t[..n]
    requires j <= |t|
    ensures KeyAt(t, key, j) == (n < j && KeyAt(t[n + 1..], key, j - n - 1))
  {
    if n < j {
      KeyAtShift(t, key, n, j);
    } else if 0 < j {
      assert t[j - 1] in t[..n];
    }
  }

  /** `SearchKeyFirst` when the first line has no candidate and ends with
      the newline at `n`. */
  lemma {:induction false} SearchKeyAfterLine(t: string, key: string, n: nat)
    requires !KeyAt(t, key, 0)
    requires n < |t| && t[n] == '\n' && '\n' !in t[..n]
    requires SearchKey(t, key) == SearchKey(t[n + 1..], key)
    ensures SearchKey(t, key).None? ==> forall j: nat | j <= |t| :: !KeyAt(t, key, j)
    ensures SearchKey(t, key).Some? ==> exists j: nat | j <= |t| :: FirstKeyAt(t, key, j, SearchKey(t, key))
    decreases |t|, 0
  {
    var u := t[n + 1..];
    SearchKeyFirst(u, key);
    if SearchKey(u, key).Some? {
      var i: nat :| i <= |u| && FirstKeyAt(u, key, i, SearchKey(u, key));
      var j := i + n + 1;
      assert KeyAt(t, key, j) && SearchKey(t, key) == ValueOf(AfterTag(t, key, j)) by {
        KeyAtAfterLine(t, key, n, j);
        assert AfterTag(t, key, j) == AfterTag(u, key, i);
      }
      assert forall j': nat | j' < j :: !KeyAt(t, key, j') by {
        forall j': nat | j' < j ensures !KeyAt(t, key, j') {
          KeyAtAfterLine(t, key, n, j');
        }
      }
      assert FirstKeyAt(t, key, j, SearchKey(t, key));
    } else {
      forall j: nat | j <= |t| ensures !KeyAt(t, key, j) {
        KeyAtAfterLine(t, key, n, j);
      }
    }
  }

  /** `SearchKey` is `None` exactly when `^key:\s*(.+)$` has no match in `t`
      under `re.M`, and is otherwise the group of the leftmost match, with
      the split `\s*(.+)$` prefers there. */
  lemma SearchKeyIsRegexMatch(t: string, key: string)
    ensures SearchKey(t, key).None? <==> forall j: nat | j <= |t| :: !KeyMatchAt(t, key, j)
    ensures SearchKey(t, key).Some? ==> exists j: nat | j <= |t| ::
      && KeyMatchAt(t, key, j) && (forall j': nat | j' < j :: !KeyMatchAt(t, key, j'))
      && (exists x: nat, e: nat :: PreferredValue(AfterTag(t, key, j), x, e)
            && SearchKey(t, key) == Some(AfterTag(t, key, j)[x..e]))
  {
    forall j: nat ensures KeyAt(t, key, j) <==> KeyMatchAt(t, key, j) {
      KeyAtIsMatch(t, key, j);
    }
    SearchKeyFirst(t, key);
    if SearchKey(t, key).Some? {
      var j: nat :| j <= |t| && FirstKeyAt(t, key, j, SearchKey(t, key));
      ValueOfIsRegexMatch(AfterTag(t, key, j));
      assert KeyMatchAt(t, key, j);
    }
  }

  // ---------------------------------------------------------------------
  // The settings of a city

  /** The four settings the generator reads. */
  const Keys: seq<string> := ["slug", "city_title", "title", "preposition"]

  /** The value `meta` starts with for a setting. */
  function Default(key: string): string {
    if key == "preposition" then "in" else ""
  }

  /** The dictionary `meta` starts from: each setting with its default. */
  function Defaults(): (d: map<string, string>)
    ensures d.Keys == set k | k in Keys
    ensures forall k | k in d :: d[k] == Default(k)
  {
    map k | k in Keys :: Default(k)
  }

  /** `meta[key]` after the loop over the settings: the stripped value from
      the front matter, or the default when the block or the key is
      missing. */
  function Setting(fm: Option<string>, key: string): (v: string)
    ensures fm.None? ==> v == Default(key)
    ensures Stripped(v, Whitespace)
  {
    match fm
    case None => Default(key)
    case Some(block) => SettingOf(SearchKey(block, key), key)
  }

  /** The entry for `key` given what the search for it found. */
  function SettingOf(found: Option<string>, key: string): (v: string)
    ensures Stripped(v, Whitespace)
    ensures found.None? ==> v == Default(key)
    ensures found.Some? ==> v == Strip(found.value, Whitespace)
  {
    match found
    case None => Default(key)
    case Some(raw) => Strip(raw, Whitespace)
  }

  datatype CityMeta = CityMeta(slug: string, title: string, cityTitle: string, preposition: string)

  /** `read_city_meta` for a file with content `raw` and stem `stem`. */
  function CityMetaOf(raw: string, stem: string): (m: CityMeta)
    ensures stem != [] ==> m.slug != [] && m.cityTitle != []
    ensures m.slug == stem || m.slug == Setting(FrontMatter(UniversalNewlines(raw)), "slug")
    ensures Setting(FrontMatter(UniversalNewlines(raw)), "slug") != "" ==>
      m.slug == Setting(FrontMatter(UniversalNewlines(raw)), "slug")
    ensures Setting(FrontMatter(UniversalNewlines(raw)), "slug") == "" ==> m.slug == stem
  {
    var fm := FrontMatter(UniversalNewlines(raw));
    var given := Setting(fm, "slug");
    var slug := if given == "" then stem else given;
    var title := Setting(fm, "title");
    var cityTitle := Setting(fm, "city_title");
    CityMeta(
      slug,
      title,
      if cityTitle != "" then cityTitle else if title != "" then title else Title(ReplaceChar(slug, '-', ' ')),
      Setting(fm, "preposition"))
  }

  lemma CityMetaFromSettings(raw: string, stem: string, meta: map<string, string>)
    requires var block := FrontMatter(UniversalNewlines(raw));
      && "slug" in meta && meta["slug"] == Setting(block, "slug")
      && "title" in meta && meta["title"] == Setting(block, "title")
      && "city_title" in meta && meta["city_title"] == Setting(block, "city_title")
      && "preposition" in meta && meta["preposition"] == Setting(block, "preposition")
    ensures var slug := if meta["slug"] == "" then stem else meta["slug"];
      CityMetaOf(raw, stem) == CityMeta(
        slug, meta["title"],
        if meta["city_title"] != "" then meta["city_title"]
        else if meta["title"] != "" then meta["title"]
        else Title(ReplaceChar(slug, '-', ' ')),
        meta["preposition"])
  {
  }

  /** `read_city_meta` as the script runs it: `meta` starts from the
      defaults, each setting the block gives overwrites its entry, and the
      two fallbacks fill in what is still empty. */
  method ReadCityMeta(raw: string, stem: string) returns (m: CityMeta)
    ensures m == CityMetaOf(raw, stem)
  {
    var text := UniversalNewlines(raw);
    var block := FrontMatter(text);
    var meta := ReadSettings(block);
    CityMetaFromSettings(raw, stem, meta);
    if meta["slug"] == "" {
      meta := meta["slug" := stem];
    }
    if meta["city_title"] == "" {
      meta := meta["city_title" :=
        if meta["title"] != "" then meta["title"] else Title(ReplaceChar(meta["slug"], '-', ' '))];
    }
    m := CityMeta(meta["slug"], meta["title"], meta["city_title"], meta["preposition"]);
  }

  /** `meta[key] = found.strip()` when the search found something;
      `meta` unchanged otherwise. */
  function Put(meta: map<string, string>, key: string, found: Option<string>): (r: map<string, string>)
    ensures found.None? ==> r == meta
    ensures found.Some? ==> r == meta[key := Strip(found.value, Whitespace)]
    ensures found.Some? ==> r.Keys == meta.Keys + {key} && r[key] == Strip(found.value, Whitespace)
    ensures forall k | k in meta && k != key :: r[k] == meta[k]
  {
    if found.Some? then meta[key := Strip(found.value, Whitespace)] else meta
  }

  /** `meta`, starting from `init`, once the loop over the settings has
      handled `keys`, where `lookup` gives what the search for each key
      finds. */
  function Applied(init: map<string, string>, lookup: string -> Option<string>, keys: seq<string>): map<string, string>
    decreases |keys|
  {
    if keys == [] then init
    else Put(Applied(init, lookup, keys[..|keys| - 1]), keys[|keys| - 1], lookup(keys[|keys| - 1]))
  }

  /** One step of the loop sets the entry of its own key, from the default
      it still holds. */
  lemma AppliedStepOwn(init: map<string, string>, lookup: string -> Option<string>, keys: seq<string>)
    requires keys != []
    requires keys[|keys| - 1] in Applied(init, lookup, keys[..|keys| - 1])
    requires Applied(init, lookup, keys[..|keys| - 1])[keys[|keys| - 1]] == Default(keys[|keys| - 1])
    ensures keys[|keys| - 1] in Applied(init, lookup, keys)
    ensures Applied(init, lookup, keys)[keys[|keys| - 1]] == SettingOf(lookup(keys[|keys| - 1]), keys[|keys| - 1])
  {
    var meta, key := Applied(init, lookup, keys[..|keys| - 1]), keys[|keys| - 1];
    assert Applied(init, lookup, keys) == Put(meta, key, lookup(key));
  }

  /** One step of the loop leaves the other entries alone. */
  lemma AppliedStepOthers(init: map<string, string>, lookup: string -> Option<string>, keys: seq<string>, k: string)
    requires keys != []
    requires k in Applied(init, lookup, keys[..|keys| - 1]) && k != keys[|keys| - 1]
    ensures k in Applied(init, lookup, keys)
    ensures Applied(init, lookup, keys)[k] == Applied(init, lookup, keys[..|keys| - 1])[k]
  {
  }

  /** After the loop over distinct keys each setting holds what the search
      for it found, stripped, or its default. */
  lemma AppliedSettings(lookup: string -> Option<string>)
    ensures var meta := Applied(Defaults(), lookup, Keys);
      && "slug" in meta && meta["slug"] == SettingOf(lookup("slug"), "slug")
      && "title" in meta && meta["title"] == SettingOf(lookup("title"), "title")
      && "city_title" in meta && meta["city_title"] == SettingOf(lookup("city_title"), "city_title")
      && "preposition" in meta && meta["preposition"] == SettingOf(lookup("preposition"), "preposition")
  {
    var d := Defaults();
    var k1, k2, k3, k4 := Keys[..1], Keys[..2], Keys[..3], Keys[..4];
    assert k1[..0] == [] && k2[..1] == k1 && k3[..2] == k2 && k4[..3] == k3 && k4 == Keys;
    var m0, m1, m2, m3 := Applied(d, lookup, []), Applied(d, lookup, k1), Applied(d, lookup, k2), Applied(d, lookup, k3);
    var m4 := Applied(d, lookup, k4);
    assert m0 == d;
    assert && "slug" in m1 && m1["slug"] == SettingOf(lookup("slug"), "slug")
           && "city_title" in m1 && m1["city_title"] == Default("city_title")
           && "title" in m1 && m1["title"] == Default("title")
           && "preposition" in m1 && m1["preposition"] == Default("preposition") by {
      AppliedStepOwn(d, lookup, k1);
      AppliedStepOthers(d, lookup, k1, "city_title");
      AppliedStepOthers(d, lookup, k1, "title");
      AppliedStepOthers(d, lookup, k1, "preposition");
    }
    assert && "slug" in m2 && m2["slug"] == SettingOf(lookup("slug"), "slug")
           && "city_title" in m2 && m2["city_title"] == SettingOf(lookup("city_title"), "city_title")
           && "title" in m2 && m2["title"] == Default("title")
           && "preposition" in m2 && m2["preposition"] == Default("preposition") by {
      AppliedStepOwn(d, lookup, k2);
      AppliedStepOthers(d, lookup, k2, "slug");
      AppliedStepOthers(d, lookup, k2, "title");
      AppliedStepOthers(d, lookup, k2, "preposition");
    }
    assert && "slug" in m3 && m3["slug"] == SettingOf(lookup("slug"), "slug")
           && "city_title" in m3 && m3["city_title"] == SettingOf(lookup("city_title"), "city_title")
           && "title" in m3 && m3["title"] == SettingOf(lookup("title"), "title")
           && "preposition" in m3 && m3["preposition"] == Default("preposition") by {
      AppliedStepOwn(d, lookup, k3);
      AppliedStepOthers(d, lookup, k3, "slug");
      AppliedStepOthers(d, lookup, k3, "city_title");
      AppliedStepOthers(d, lookup, k3, "preposition");
    }
    assert && "slug" in m4 && m4["slug"] == SettingOf(lookup("slug"), "slug")
           && "city_title" in m4 && m4["city_title"] == SettingOf(lookup("city_title"), "city_title")
           && "title" in m4 && m4["title"] == SettingOf(lookup("title"), "title")
           && "preposition" in m4 && m4["preposition"] == SettingOf(lookup("preposition"), "preposition") by {
      AppliedStepOwn(d, lookup, k4);
      AppliedStepOthers(d, lookup, k4, "slug");
      AppliedStepOthers(d, lookup, k4, "city_title");
      AppliedStepOthers(d, lookup, k4, "title");
    }
  }

  /** The loop's step from `keys[..i]` to `keys[..i + 1]`. */
  lemma AppliedNext(init: map<string, string>, lookup: string -> Option<string>, keys: seq<string>, i: nat)
    requires i < |keys|
    ensures Applied(init, lookup, keys[..i + 1]) == Put(Applied(init, lookup, keys[..i]), keys[i], lookup(keys[i]))
  {
    assert keys[..i + 1][..i] == keys[..i];
  }

  /** What the search for each key finds in `block`. */
  function Lookup(block: string): string -> Option<string> {
    k => SearchKey(block, k)
  }

  /** The loop over the settings: each key the search finds in `block` is
      set to the value found, stripped. */
  method SearchSettings(init: map<string, string>, block: string) returns (meta: map<string, string>)
    ensures meta == Applied(init, Lookup(block), Keys)
  {
    meta := init;
    for i := 0 to |Keys|
      invariant meta == Applied(init, Lookup(block), Keys[..i])
    {
      AppliedNext(init, Lookup(block), Keys, i);
      var found := SearchKey(block, Keys[i]);
      if found.Some? {
        meta := meta[Keys[i] := Strip(found.value, Whitespace)];
      }
    }
    assert Keys[..|Keys|] == Keys;
  }

  /** The dictionary `meta` after the loop over the settings. */
  method ReadSettings(block: Option<string>) returns (meta: map<string, string>)
    ensures "slug" in meta && meta["slug"] == Setting(block, "slug")
    ensures "title" in meta && meta["title"] == Setting(block, "title")
    ensures "city_title" in meta && meta["city_title"] == Setting(block, "city_title")
    ensures "preposition" in meta && meta["preposition"] == Setting(block, "preposition")
  {
    meta := Defaults();
    if block.Some? {
      meta := SearchSettings(meta, block.value);
      AppliedSettings(Lookup(block.value));
    }
  }

  /** Without a front-matter block only the defaults and the fallbacks
      apply. */
  lemma NoBlockDefaults(raw: string, stem: string)
    requires FrontMatter(UniversalNewlines(raw)).None?
    ensures CityMetaOf(raw, stem) == CityMeta(stem, "", Title(ReplaceChar(stem, '-', ' ')), "in")
  {
  }

  /** `preposition` is `in` unless the block sets it. */
  lemma PrepositionDefault(raw: string, stem: string)
    requires var fm := FrontMatter(UniversalNewlines(raw));
      fm.None? || SearchKey(fm.value, "preposition").None?
    ensures CityMetaOf(raw, stem).preposition == "in"
  {
  }

  /** A `city_title` the block leaves empty falls back to `title`, and then
      to the slug with its hyphens turned into spaces, title-cased. */
  lemma CityTitleFallback(raw: string, stem: string)
    requires Setting(FrontMatter(UniversalNewlines(raw)), "city_title") == ""
    ensures var m := CityMetaOf(raw, stem);
      m.cityTitle == if m.title != "" then m.title else Title(ReplaceChar(m.slug, '-', ' '))
  {
  }
}
