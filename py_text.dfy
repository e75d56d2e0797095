/** The pieces of Python's `str`, `re` and text-file reading that the page
    generator relies on, over the ASCII character set.

    Characters above 0x7F are classified as neither letters, digits, word
    characters nor whitespace, and the case mappings leave them unchanged. */
module PyText {

  datatype Option<T> = None | Some(value: T)

  // ---------------------------------------------------------------------
  // Character classes

  /** `\s` in a `str` pattern and `str.isspace()`, restricted to ASCII. */
  predicate IsSpace(c: char) {
    c == ' ' || c == '\t' || c == '\n' || c == '\r' || c == '\U{B}' || c == '\U{C}'
    || ('\U{1C}' <= c <= '\U{1F}')
  }

  predicate IsUpper(c: char) { 'A' <= c <= 'Z' }
  predicate IsLower(c: char) { 'a' <= c <= 'z' }
  predicate IsDigit(c: char) { '0' <= c <= '9' }

  /** Python's "cased" characters, restricted to ASCII. */
  predicate IsCased(c: char) { IsUpper(c) || IsLower(c) }

  /** `\w` in a `str` pattern, restricted to ASCII. */
  predicate IsWordChar(c: char) { IsCased(c) || IsDigit(c) || c == '_' }

  /** The character classes the generator's patterns and `strip` calls use. */
  datatype CharClass =
    | Whitespace        // `\s`, and the default argument of `str.strip`
    | SpaceOrUnderscore // `[\s_]`
    | Hyphen            // `-`, and the argument of `str.strip("-")`
    | WordSpaceHyphen   // `[\w\s-]`
  {
    predicate Has(c: char) {
      match this
      case Whitespace => IsSpace(c)
      case SpaceOrUnderscore => IsSpace(c) || c == '_'
      case Hyphen => c == '-'
      case WordSpaceHyphen => IsWordChar(c) || IsSpace(c) || c == '-'
    }
  }

  predicate AllIn(s: string, k: CharClass) {
    forall i | 0 <= i < |s| :: k.Has(s[i])
  }

  /** The characters at `i` and `i + 1` both belong to `k`. */
  predicate PairAt(s: string, i: nat, k: CharClass)
    requires i + 1 < |s|
  {
    k.Has(s[i]) && k.Has(s[i + 1])
  }

  /** No two neighbouring characters of `s` both belong to `k`. */
  predicate NoAdjacent(s: string, k: CharClass) {
    forall i: nat | i + 1 < |s| :: !PairAt(s, i, k)
  }

  lemma NoAdjacentSlice(s: string, a: nat, b: nat, k: CharClass)
    requires a <= b <= |s| && NoAdjacent(s, k)
    ensures NoAdjacent(s[a..b], k)
  {
    var t := s[a..b];
    forall i: nat | i + 1 < |t| ensures !PairAt(t, i, k) {
      assert t[i] == s[a + i] && t[i + 1] == s[a + i + 1];
      assert !PairAt(s, a + i, k);
    }
  }

  // ---------------------------------------------------------------------
  // Case mappings

  function ToLowerChar(c: char): (r: char)
    ensures !IsUpper(r) && IsCased(r) == IsCased(c) && IsSpace(r) == IsSpace(c)
    ensures IsWordChar(r) == IsWordChar(c)
    ensures !IsUpper(c) ==> r == c
  {
    if IsUpper(c) then (c as int + 32) as char else c
  }

  function ToUpperChar(c: char): (r: char)
    ensures !IsLower(r) && IsCased(r) == IsCased(c)
    ensures !IsLower(c) ==> r == c
    ensures ToLowerChar(r) == ToLowerChar(c)
  {
    if IsLower(c) then (c as int - 32) as char else c
  }

  /** `str.lower()`. */
  function Lower(s: string): (r: string)
    ensures |r| == |s|
    ensures forall i | 0 <= i < |s| :: r[i] == ToLowerChar(s[i])
  {
    seq(|s|, i requires 0 <= i < |s| => ToLowerChar(s[i]))
  }

  /** `str.title()`: a cased character is upper-cased when the character
      before it is not cased, and lower-cased otherwise; `cased` says whether
      the character before `s` was cased. */
  function TitleFrom(s: string, cased: bool): (r: string)
    ensures |r| == |s|
    ensures forall i | 0 <= i < |s| :: ToLowerChar(r[i]) == ToLowerChar(s[i])
    ensures forall i | 0 <= i < |s| :: !IsCased(s[i]) ==> r[i] == s[i]
    ensures s != [] && !cased ==> r[0] == ToUpperChar(s[0])
    ensures forall i | 0 <= i < |s| && IsCased(s[i]) ::
      r[i] == if (if i == 0 then cased else IsCased(s[i - 1])) then ToLowerChar(s[i]) else ToUpperChar(s[i])
    decreases |s|
  {
    if s == [] then []
    else [if cased then ToLowerChar(s[0]) else ToUpperChar(s[0])] + TitleFrom(s[1..], IsCased(s[0]))
  }

  /** `str.title()`: each cased character is upper-cased when the character
      before it in the input is not cased (or it is the first), and
      lower-cased when it is. */
  function Title(s: string): (r: string)
    ensures |r| == |s|
    ensures forall i | 0 <= i < |s| :: ToLowerChar(r[i]) == ToLowerChar(s[i])
    ensures forall i | 0 <= i < |s| :: !IsCased(s[i]) ==> r[i] == s[i]
    ensures forall i | 0 <= i < |s| && IsCased(s[i]) ::
      r[i] == if i > 0 && IsCased(s[i - 1]) then ToLowerChar(s[i]) else ToUpperChar(s[i])
  {
    TitleFrom(s, false)
  }

  /** `str.replace(target, with)` for one-character `target` and `with`. */
  function ReplaceChar(s: string, target: char, with: char): (r: string)
    ensures |r| == |s|
    ensures forall i | 0 <= i < |s| :: r[i] == if s[i] == target then with else s[i]
  {
    seq(|s|, i requires 0 <= i < |s| => if s[i] == target then with else s[i])
  }

  // ---------------------------------------------------------------------
  // Stripping, filtering and collapsing runs

  /** Drops the longest prefix of `s` whose characters are all in `k`. */
  function TrimStart(s: string, k: CharClass): (r: string)
    ensures |r| <= |s| && r == s[|s| - |r|..]
    ensures r == [] || !k.Has(r[0])
    ensures forall i | 0 <= i < |s| - |r| :: k.Has(s[i])
    decreases |s|
  {
    if s != [] && k.Has(s[0]) then TrimStart(s[1..], k) else s
  }

  /** Drops the longest suffix of `s` whose characters are all in `k`. */
  function TrimEnd(s: string, k: CharClass): (r: string)
    ensures |r| <= |s| && r == s[..|r|]
    ensures r == [] || !k.Has(r[|r| - 1])
    ensures forall i | |r| <= i < |s| :: k.Has(s[i])
    decreases |s|
  {
    if s != [] && k.Has(s[|s| - 1]) then TrimEnd(s[..|s| - 1], k) else s
  }

  /** Neither end of `s` is in `k`. */
  predicate Stripped(s: string, k: CharClass) {
    s == [] || (!k.Has(s[0]) && !k.Has(s[|s| - 1]))
  }

  /** `str.strip()` (for `Whitespace`) and `str.strip("-")` (for `Hyphen`). */
  function Strip(s: string, k: CharClass): (r: string)
    ensures |r| <= |s|
    ensures Stripped(r, k)
    ensures forall c | c in r :: c in s
    ensures AllIn(s, k) ==> r == []
    ensures Stripped(s, k) ==> r == s
  {
    var t := TrimStart(s, k);
    var r := TrimEnd(t, k);
    assert forall c | c in r :: c in t;
    assert forall c | c in t :: c in s;
    assert t != [] ==> t[0] == s[|s| - |t|];
    r
  }

  /** Trimming the start drops exactly a prefix made of `k`. */
  lemma {:induction false} TrimStartPadded(pre: string, rest: string, k: CharClass)
    requires AllIn(pre, k) && (rest == [] || !k.Has(rest[0]))
    ensures TrimStart(pre + rest, k) == rest
    decreases |pre|
  {
    if pre != [] {
      assert (pre + rest)[1..] == pre[1..] + rest;
      TrimStartPadded(pre[1..], rest, k);
    } else {
      assert pre + rest == rest;
    }
  }

  /** Trimming the end drops exactly a suffix made of `k`. */
  lemma {:induction false} TrimEndPadded(rest: string, post: string, k: CharClass)
    requires AllIn(post, k) && (rest == [] || !k.Has(rest[|rest| - 1]))
    ensures TrimEnd(rest + post, k) == rest
    decreases |post|
  {
    if post != [] {
      var n := |post| - 1;
      assert (rest + post)[..|rest| + n] == rest + post[..n];
      assert (rest + post)[|rest| + n] == post[n];
      TrimEndPadded(rest, post[..n], k);
    } else {
      assert rest + post == rest;
    }
  }

  /** Stripping padding made of `k` from around a text whose ends are not
      in `k` gives that text back. */
  lemma StripPadded(pre: string, body: string, post: string, k: CharClass)
    requires AllIn(pre, k) && AllIn(post, k)
    requires body != [] && !k.Has(body[0]) && !k.Has(body[|body| - 1])
    ensures Strip(pre + body + post, k) == body
  {
    assert pre + body + post == pre + (body + post);
    TrimStartPadded(pre, body + post, k);
    TrimEndPadded(body, post, k);
  }

  /** `re.sub(r"[^<k>]", "", s)`: keeps the characters of `s` that are in `k`. */
  function Keep(s: string, k: CharClass): (r: string)
    ensures forall c | c in r :: c in s && k.Has(c)
    ensures AllIn(s, k) ==> r == s
    decreases |s|
  {
    if s == [] then []
    else if k.Has(s[0]) then [s[0]] + Keep(s[1..], k)
    else Keep(s[1..], k)
  }

  /** `re.sub(r"<k>+", rep, s)`: every maximal run of characters in `k` is
      replaced by the single character `rep`. */
  function ReplaceRuns(s: string, k: CharClass, rep: char): (r: string)
    ensures forall c | c in r :: c == rep || (c in s && !k.Has(c))
    ensures s != [] ==> r != [] && r[0] == (if k.Has(s[0]) then rep else s[0])
    decreases |s|
  {
    if s == [] then []
    else if k.Has(s[0]) then [rep] + ReplaceRuns(TrimStart(s[1..], k), k, rep)
    else [s[0]] + ReplaceRuns(s[1..], k, rep)
  }

  /** `Keep` works character by character: it filters two texts one after
      the other. */
  lemma {:induction false} KeepConcat(a: string, b: string, k: CharClass)
    ensures Keep(a + b, k) == Keep(a, k) + Keep(b, k)
    decreases |a|
  {
    if a != [] {
      assert (a + b)[1..] == a[1..] + b;
      KeepConcat(a[1..], b, k);
    } else {
      assert a + b == b;
    }
  }

  /** A single character is kept exactly when it is in the class. */
  lemma KeepOne(c: char, k: CharClass)
    ensures Keep([c], k) == if k.Has(c) then [c] else []
  {
    assert [c][1..] == [];
  }

  /** A character outside the class is not part of any run: what stands
      after it is untouched by stripping a run before it. */
  lemma {:induction false} TrimStartAround(x: string, c: char, y: string, k: CharClass)
    requires !k.Has(c)
    ensures TrimStart(x + [c] + y, k) == TrimStart(x, k) + [c] + y
    decreases |x|
  {
    var s := x + [c] + y;
    if x == [] {
      assert s == [c] + y && s[0] == c;
    } else if k.Has(x[0]) {
      assert s[0] == x[0];
      assert s[1..] == x[1..] + [c] + y;
      calc {
        TrimStart(s, k);
        TrimStart(s[1..], k);
        { TrimStartAround(x[1..], c, y, k); }
        TrimStart(x[1..], k) + [c] + y;
        TrimStart(x, k) + [c] + y;
      }
    } else {
      assert s[0] == x[0];
    }
  }

  /** A character outside the class splits the text: runs on either side of
      it are collapsed separately, and the character itself stays. */
  lemma {:induction false} ReplaceRunsAround(x: string, c: char, y: string, k: CharClass, rep: char)
    requires !k.Has(c)
    ensures ReplaceRuns(x + [c] + y, k, rep) == ReplaceRuns(x, k, rep) + [c] + ReplaceRuns(y, k, rep)
    decreases |x|, 1
  {
    if x == [] {
      var s := x + [c] + y;
      assert s == [c] + y && s[0] == c && s[1..] == y;
    } else if k.Has(x[0]) {
      RunBeforeAround(x, c, y, k, rep);
    } else {
      OtherBeforeAround(x, c, y, k, rep);
    }
  }

  lemma ConsAround(h: string, a: string, c: char, b: string)
    ensures h + (a + [c] + b) == (h + a) + [c] + b
  {
  }

  /** Collapsing the run `x` starts with stops at `c`. */
  lemma RunFirst(x: string, c: char, y: string, k: CharClass, rep: char)
    requires !k.Has(c) && x != [] && k.Has(x[0])
    ensures ReplaceRuns(x + [c] + y, k, rep) == [rep] + ReplaceRuns(TrimStart(x[1..], k) + [c] + y, k, rep)
  {
    var s := x + [c] + y;
    assert s[0] == x[0] && s[1..] == x[1..] + [c] + y;
    TrimStartAround(x[1..], c, y, k);
  }

  /** `ReplaceRunsAround` when `x` starts with a run. */
  lemma {:induction false} RunBeforeAround(x: string, c: char, y: string, k: CharClass, rep: char)
    requires !k.Has(c) && x != [] && k.Has(x[0])
    ensures ReplaceRuns(x + [c] + y, k, rep) == ReplaceRuns(x, k, rep) + [c] + ReplaceRuns(y, k, rep)
    decreases |x|, 0
  {
    var x' := TrimStart(x[1..], k);
    var t := x' + [c] + y;
    var a := ReplaceRuns(x', k, rep);
    var b := ReplaceRuns(y, k, rep);
    RunFirst(x, c, y, k, rep);
    assert ReplaceRuns(t, k, rep) == a + [c] + b by {
      ReplaceRunsAround(x', c, y, k, rep);
    }
    assert ReplaceRuns(x, k, rep) == [rep] + a;
    ConsAround([rep], a, c, b);
  }

  /** `ReplaceRunsAround` when `x` starts outside the class. */
  lemma {:induction false} OtherBeforeAround(x: string, c: char, y: string, k: CharClass, rep: char)
    requires !k.Has(c) && x != [] && !k.Has(x[0])
    ensures ReplaceRuns(x + [c] + y, k, rep) == ReplaceRuns(x, k, rep) + [c] + ReplaceRuns(y, k, rep)
    decreases |x|, 0
  {
    var t := x[1..] + [c] + y;
    var a := ReplaceRuns(x[1..], k, rep);
    var b := ReplaceRuns(y, k, rep);
    assert ReplaceRuns(x + [c] + y, k, rep) == [x[0]] + ReplaceRuns(t, k, rep) by {
      var s := x + [c] + y;
      assert s[0] == x[0] && s[1..] == t;
    }
    assert ReplaceRuns(t, k, rep) == a + [c] + b by {
      ReplaceRunsAround(x[1..], c, y, k, rep);
    }
    assert ReplaceRuns(x, k, rep) == [x[0]] + a;
    ConsAround([x[0]], a, c, b);
  }

  /** A non-empty run of class characters becomes the single `rep`. */
  lemma ReplaceRunsOfRun(run: string, k: CharClass, rep: char)
    requires run != [] && AllIn(run, k)
    ensures ReplaceRuns(run, k, rep) == [rep]
  {
    assert TrimStart(run[1..], k) == [];
  }

  lemma PairAtCons(c: char, t: string, i: nat, k: CharClass)
    requires i + 1 < |t|
    ensures PairAt([c] + t, i + 1, k) == PairAt(t, i, k)
  {
    assert ([c] + t)[i + 1] == t[i] && ([c] + t)[i + 2] == t[i + 1];
  }

  /** When the replacement itself belongs to the class, collapsing leaves no
      two neighbouring characters of the class (`re.sub(r"-+", "-", s)`
      leaves no `--`). */
  lemma {:induction false} ReplaceRunsNoAdjacent(s: string, k: CharClass, rep: char)
    requires k.Has(rep)
    ensures NoAdjacent(ReplaceRuns(s, k, rep), k)
    decreases |s|
  {
    if s != [] {
      var rest := if k.Has(s[0]) then TrimStart(s[1..], k) else s[1..];
      var t := ReplaceRuns(rest, k, rep);
      var r := ReplaceRuns(s, k, rep);
      ReplaceRunsNoAdjacent(rest, k, rep);
      assert r == [r[0]] + t;
      forall i: nat | i + 1 < |r| ensures !PairAt(r, i, k) {
        if i == 0 {
          assert t[0] == (if k.Has(rest[0]) then rep else rest[0]);
        } else {
          PairAtCons(r[0], t, i - 1, k);
        }
      }
    }
  }

  lemma StripKeepsNoAdjacent(s: string, k: CharClass, k2: CharClass)
    requires NoAdjacent(s, k2)
    ensures NoAdjacent(Strip(s, k), k2)
  {
    var t := TrimStart(s, k);
    NoAdjacentSlice(s, |s| - |t|, |s|, k2);
    assert s[|s| - |t|..|s|] == t;
    NoAdjacentSlice(t, 0, |TrimEnd(t, k)|, k2);
  }

  /** Replaces every character of `s` in `k` by `rep`, one for one. */
  function ReplaceEach(s: string, k: CharClass, rep: char): (r: string)
    ensures |r| == |s|
    ensures forall i | 0 <= i < |s| :: r[i] == if k.Has(s[i]) then rep else s[i]
  {
    seq(|s|, i requires 0 <= i < |s| => if k.Has(s[i]) then rep else s[i])
  }

  lemma ReplaceEachCons(s: string, k: CharClass, rep: char)
    requires s != []
    ensures ReplaceEach(s, k, rep)
         == [if k.Has(s[0]) then rep else s[0]] + ReplaceEach(s[1..], k, rep)
  {
    var e := ReplaceEach(s, k, rep);
    assert e == [e[0]] + e[1..];
    assert e[1..] == ReplaceEach(s[1..], k, rep);
  }

  /** Where no two characters in `k` are neighbours, every run has length
      one, so collapsing runs replaces characters one for one. */
  lemma {:induction false} ReplaceRunsOfSingles(s: string, k: CharClass, rep: char)
    requires NoAdjacent(s, k)
    ensures ReplaceRuns(s, k, rep) == ReplaceEach(s, k, rep)
    decreases |s|
  {
    if s != [] {
      var tail := s[1..];
      NoAdjacentSlice(s, 1, |s|, k);
      assert s[1..|s|] == tail;
      ReplaceRunsOfSingles(tail, k, rep);
      ReplaceEachCons(s, k, rep);
      if k.Has(s[0]) {
        assert |s| > 1 ==> !PairAt(s, 0, k);
        assert TrimStart(tail, k) == tail;
      }
    }
  }

  // ---------------------------------------------------------------------
  // Searching

  predicate StartsWith(s: string, prefix: string) {
    |prefix| <= |s| && s[..|prefix|] == prefix
  }

  /** `s.find(c)` as an option: the index of the first `c` in `s`. */
  function IndexOf(s: string, c: char): (r: Option<nat>)
    ensures r.Some? ==> r.value < |s| && s[r.value] == c && c !in s[..r.value]
    ensures r.None? ==> c !in s
    decreases |s|
  {
    if s == [] then None
    else if s[0] == c then Some(0)
    else match IndexOf(s[1..], c)
      case None => None
      case Some(i) => assert s[..i + 1] == [s[0]] + s[1..][..i]; Some(i + 1)
  }

  /** The first occurrence is the one `IndexOf` finds. */
  lemma {:induction false} IndexOfAt(s: string, c: char, n: nat)
    requires n < |s| && s[n] == c && c !in s[..n]
    ensures IndexOf(s, c) == Some(n)
    decreases n
  {
    if n > 0 {
      assert s[0] == s[..n][0];
      assert s[1..][..n - 1] == s[..n][1..];
      IndexOfAt(s[1..], c, n - 1);
    }
  }

  /** Every character of `s[a..b]` is whitespace. */
  predicate SpacesBetween(s: string, a: int, b: int)
    requires 0 <= a && b <= |s|
  {
    forall j | a <= j < b :: IsSpace(s[j])
  }

  /** Where a greedy `\s*` that starts at `from` stops: the first index at
      or after `from` that does not hold whitespace, or `|s|`. */
  function SkipSpaces(s: string, from: nat): (r: nat)
    requires from <= |s|
    ensures from <= r <= |s| && SpacesBetween(s, from, r)
    ensures r < |s| ==> !IsSpace(s[r])
    decreases |s| - from
  {
    if from < |s| && IsSpace(s[from]) then SkipSpaces(s, from + 1) else from
  }

  /** The end of `s[..end]` without its trailing whitespace: the index after
      the last non-whitespace character before `end`, or 0. */
  function EndOfText(s: string, end: nat): (r: nat)
    requires end <= |s|
    ensures r <= end && SpacesBetween(s, r, end)
    ensures r > 0 ==> !IsSpace(s[r - 1])
    decreases end
  {
    if end > 0 && IsSpace(s[end - 1]) then EndOfText(s, end - 1) else end
  }

  // ---------------------------------------------------------------------
  // Reading text files

  /** Universal-newline translation, which `open()` and `Path.read_text()`
      apply by default: `"\r\n"` and a lone `"\r"` both become `"\n"`. */
  function UniversalNewlines(raw: string): (t: string)
    ensures '\r' !in t
    ensures '\r' !in raw ==> t == raw
    decreases |raw|
  {
    if raw == [] then []
    else if raw[0] == '\r' then
      "\n" + UniversalNewlines(if |raw| > 1 && raw[1] == '\n' then raw[2..] else raw[1..])
    else [raw[0]] + UniversalNewlines(raw[1..])
  }

  /** A `"\r\n"` pair is read as one newline. */
  lemma UniversalCrLf(x: string)
    ensures UniversalNewlines("\r\n" + x) == "\n" + UniversalNewlines(x)
  {
    assert ("\r\n" + x)[2..] == x;
  }

  /** A `"\r"` not followed by `"\n"` is read as a newline. */
  lemma UniversalLoneCr(x: string)
    requires x == [] || x[0] != '\n'
    ensures UniversalNewlines("\r" + x) == "\n" + UniversalNewlines(x)
  {
    assert ("\r" + x)[1..] == x;
  }

  /** Any other character is read as it is. With the two lemmas above this
      fixes the reading of every text. */
  lemma UniversalOther(c: char, x: string)
    requires c != '\r'
    ensures UniversalNewlines([c] + x) == [c] + UniversalNewlines(x)
  {
    assert ([c] + x)[1..] == x;
  }

  /** `text` as a file written with `"\r\n"` line ends, or with `eol` for
      each newline in general. */
  function WithLineEnds(text: string, eol: string): (raw: string)
    ensures '\n' !in eol ==> '\n' !in raw
    decreases |text|
  {
    if text == [] then []
    else (if text[0] == '\n' then eol else [text[0]]) + WithLineEnds(text[1..], eol)
  }

  lemma HeadTail(text: string)
    requires text != []
    ensures text == [text[0]] + text[1..]
  {
  }

  /** A file written with Windows line ends (`"\r\n"`) reads back as the
      text it was written from. */
  lemma {:induction false} CrLfReadsBack(text: string)
    requires '\r' !in text
    ensures UniversalNewlines(WithLineEnds(text, "\r\n")) == text
    decreases |text|
  {
    if text != [] {
      var rest := WithLineEnds(text[1..], "\r\n");
      var tail := text[1..];
      assert UniversalNewlines(rest) == tail by {
        assert '\r' !in tail by { assert forall c | c in tail :: c in text; }
        CrLfReadsBack(tail);
      }
      HeadTail(text);
      if text[0] == '\n' {
        assert WithLineEnds(text, "\r\n") == "\r\n" + rest;
        UniversalCrLf(rest);
      } else {
        assert WithLineEnds(text, "\r\n") == [text[0]] + rest;
        assert ([text[0]] + rest)[1..] == rest;
      }
    }
  }

  /** A file written with old Mac line ends (a lone `"\r"`) reads back as the
      text it was written from. */
  lemma {:induction false} CrReadsBack(text: string)
    requires '\r' !in text
    ensures UniversalNewlines(WithLineEnds(text, "\r")) == text
    decreases |text|
  {
    if text != [] {
      var rest := WithLineEnds(text[1..], "\r");
      var tail := text[1..];
      assert UniversalNewlines(rest) == tail by {
        assert '\r' !in tail by { assert forall c | c in tail :: c in text; }
        CrReadsBack(tail);
      }
      HeadTail(text);
      if text[0] == '\n' {
        assert WithLineEnds(text, "\r") == "\r" + rest;
        assert rest == [] || rest[0] != '\n' by {
          if rest != [] { assert rest[0] in rest; }
        }
        UniversalLoneCr(rest);
      } else {
        assert WithLineEnds(text, "\r") == [text[0]] + rest;
        assert ([text[0]] + rest)[1..] == rest;
      }
    }
  }

  /** A line as iterating over a text file yields it: non-empty, with a
      newline at most as its last character. */
  predicate IsLine(l: string) {
    l != [] && forall j | 0 <= j < |l| - 1 :: l[j] != '\n'
  }

  /** The lines that iterating over a text file with content `t` yields. */
  function Lines(t: string): (ls: seq<string>)
    ensures forall i | 0 <= i < |ls| :: IsLine(ls[i])
    ensures forall i | 0 <= i < |ls| - 1 :: ls[i] != [] && ls[i][|ls[i]| - 1] == '\n'
    decreases |t|
  {
    if t == [] then []
    else match IndexOf(t, '\n')
      case None => [t]
      case Some(n) => [t[..n + 1]] + Lines(t[n + 1..])
  }

  function Concat(ls: seq<string>): string
    decreases |ls|
  {
    if ls == [] then [] else ls[0] + Concat(ls[1..])
  }

  /** Reading a file line by line loses nothing and adds nothing. */
  lemma {:induction false} LinesConcat(t: string)
    ensures Concat(Lines(t)) == t
    decreases |t|
  {
    if t != [] {
      match IndexOf(t, '\n')
      case None =>
      case Some(n) =>
        LinesConcat(t[n + 1..]);
        assert Lines(t)[1..] == Lines(t[n + 1..]);
        assert t == t[..n + 1] + t[n + 1..];
    }
  }

  /** A line with its newline, and no other. */
  predicate WholeLine(l: string) {
    l != [] && l[|l| - 1] == '\n' && '\n' !in l[..|l| - 1]
  }

  /** A text that starts with a whole line splits into that line and the
      lines of the rest. */
  lemma LinesCons(line: string, t: string)
    requires WholeLine(line)
    ensures Lines(line + t) == [line] + Lines(t)
  {
    var s := line + t;
    var n := |line| - 1;
    assert s[..n] == line[..n];
    IndexOfAt(s, '\n', n);
    assert s[..n + 1] == line && s[n + 1..] == t;
  }

  /** Reading back whole lines written one after the other gives those
      lines. */
  lemma {:induction false} LinesOfWholeLines(ls: seq<string>)
    requires forall i | 0 <= i < |ls| :: WholeLine(ls[i])
    ensures Lines(Concat(ls)) == ls
    decreases |ls|
  {
    if ls != [] {
      LinesOfWholeLines(ls[1..]);
      LinesCons(ls[0], Concat(ls[1..]));
    }
  }

  lemma {:induction false} ConcatKeepsOut(ls: seq<string>, c: char)
    requires forall i | 0 <= i < |ls| :: c !in ls[i]
    ensures c !in Concat(ls)
    decreases |ls|
  {
    if ls != [] {
      ConcatKeepsOut(ls[1..], c);
    }
  }

  /** `"\n".join(ls)`. */
  function JoinLines(ls: seq<string>): string
    decreases |ls|
  {
    if ls == [] then []
    else if |ls| == 1 then ls[0]
    else ls[0] + "\n" + JoinLines(ls[1..])
  }

  /** Joining two non-empty lists puts one newline between their joins. */
  lemma {:induction false} JoinLinesAppend(a: seq<string>, b: seq<string>)
    requires a != [] && b != []
    ensures JoinLines(a + b) == JoinLines(a) + "\n" + JoinLines(b)
    decreases |a|
  {
    if |a| == 1 {
      assert (a + b)[1..] == b;
    } else {
      assert (a + b)[1..] == a[1..] + b;
      JoinLinesAppend(a[1..], b);
    }
  }

  /** The join ends with the last character of the last line. */
  lemma {:induction false} JoinLinesLast(ls: seq<string>)
    requires ls != [] && ls[|ls| - 1] != []
    ensures JoinLines(ls) != []
    ensures JoinLines(ls)[|JoinLines(ls)| - 1] == ls[|ls| - 1][|ls[|ls| - 1]| - 1]
    decreases |ls|
  {
    if |ls| > 1 {
      var rest := ls[1..];
      assert rest[|rest| - 1] == ls[|ls| - 1];
      JoinLinesLast(rest);
      assert JoinLines(ls) == ls[0] + "\n" + JoinLines(rest);
    }
  }

  /** The join starts with the first character of the first line and ends
      with the last character of the last line. */
  lemma JoinLinesEnds(ls: seq<string>)
    requires ls != [] && ls[0] != [] && ls[|ls| - 1] != []
    ensures JoinLines(ls) != []
    ensures JoinLines(ls)[0] == ls[0][0]
    ensures JoinLines(ls)[|JoinLines(ls)| - 1] == ls[|ls| - 1][|ls[|ls| - 1]| - 1]
  {
    JoinLinesLast(ls);
    if |ls| > 1 {
      assert JoinLines(ls) == ls[0] + "\n" + JoinLines(ls[1..]);
    }
  }

  /** A prefix that differs from `s` at `i` is not a prefix of `s`. */
  lemma NotStartsWith(s: string, prefix: string, i: nat)
    requires i < |prefix| && i < |s| && s[i] != prefix[i]
    ensures !StartsWith(s, prefix)
  {
  }
}
