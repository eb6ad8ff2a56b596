/** The string operations of Rust's `str` that the command parser is built from,
    restricted to ASCII: `split_whitespace`, `split` on a character or a string,
    `trim`, `trim_matches`, `find`, `to_uppercase` and `join`.

    Each function carries only the bounds its callers need to index safely; what
    it computes is stated by the lemma that follows it, which a proof calls where
    it needs that fact. */
module Text {
  import opened Wrappers

  /** `char::is_whitespace` on ASCII: tab, line feed, vertical tab, form feed,
      carriage return and space. */
  predicate IsWhitespace(c: char) {
    c == ' ' || c == '\t' || c == '\n' || c == '\U{000B}' || c == '\U{000C}' || c == '\r'
  }

  predicate IsWordChar(c: char) {
    !IsWhitespace(c)
  }

  /** The two quote characters the parser strips from literals. */
  predicate IsQuote(c: char) {
    c == '"' || c == '\''
  }

  predicate IsDoubleQuote(c: char) {
    c == '"'
  }

  /** The character patterns the parser trims and splits with. */
  datatype CharClass = Whitespace | NonWhitespace | Quotes | DoubleQuote {
    predicate Has(c: char) {
      match this
      case Whitespace => IsWhitespace(c)
      case NonWhitespace => IsWordChar(c)
      case Quotes => IsQuote(c)
      case DoubleQuote => IsDoubleQuote(c)
    }
  }

  /** A token of `split_whitespace`: non-empty, without whitespace. */
  predicate IsWord(w: string) {
    w != [] && forall i :: 0 <= i < |w| ==> IsWordChar(w[i])
  }

  predicate AllWords(ws: seq<string>) {
    forall i :: 0 <= i < |ws| ==> IsWord(ws[i])
  }

  // ---------------------------------------------------------------------------
  // Upper-casing

  function UpperChar(c: char): char {
    if 'a' <= c <= 'z' then (c as int - 32) as char else c
  }

  /** `str::to_uppercase` on ASCII. */
  function Upper(s: string): (r: string)
    ensures |r| == |s|
  {
    seq(|s|, i requires 0 <= i < |s| => UpperChar(s[i]))
  }

  /** A string without lower-case letters is its own upper-cased form. */
  lemma UpperNoLower(s: string)
    requires forall i :: 0 <= i < |s| ==> !('a' <= s[i] <= 'z')
    ensures Upper(s) == s
  {
  }

  // ---------------------------------------------------------------------------
  // Trimming

  /** Length of the longest prefix of `s` whose characters all satisfy `p`. */
  function LeadingRun(s: string, p: CharClass): (n: nat)
    ensures n <= |s|
  {
    if s == [] || !p.Has(s[0]) then 0 else 1 + LeadingRun(s[1..], p)
  }

  /** The run is made of `p` characters and stops at the first other one. */
  lemma {:induction false} LeadingRunSpec(s: string, p: CharClass)
    ensures var n := LeadingRun(s, p);
      && (forall i :: 0 <= i < n ==> p.Has(s[i]))
      && (n < |s| ==> !p.Has(s[n]))
  {
    if s != [] && p.Has(s[0]) {
      LeadingRunSpec(s[1..], p);
      assert forall i :: 1 <= i < |s| ==> s[i] == s[1..][i - 1];
    }
  }

  /** Length of the longest suffix of `s` whose characters all satisfy `p`. */
  function TrailingRun(s: string, p: CharClass): (n: nat)
    ensures n <= |s|
  {
    if s == [] || !p.Has(s[|s| - 1]) then 0 else 1 + TrailingRun(s[..|s| - 1], p)
  }

  lemma {:induction false} TrailingRunSpec(s: string, p: CharClass)
    ensures var n := TrailingRun(s, p);
      && (forall i :: |s| - n <= i < |s| ==> p.Has(s[i]))
      && (n < |s| ==> !p.Has(s[|s| - 1 - n]))
  {
    if s != [] && p.Has(s[|s| - 1]) {
      TrailingRunSpec(s[..|s| - 1], p);
    }
  }

  /** `str::trim_matches(p)`: `s` without its leading and trailing characters
      that satisfy `p`. */
  function TrimMatches(s: string, p: CharClass): (r: string)
    ensures |r| <= |s|
  {
    var a := LeadingRun(s, p);
    s[a..|s| - TrailingRun(s[a..], p)]
  }

  /** The result is the infix of `s` that remains after removing a prefix and a
      suffix made only of `p` characters, and it neither starts nor ends with one. */
  lemma TrimMatchesSpec(s: string, p: CharClass)
    ensures var r := TrimMatches(s, p);
      var a := LeadingRun(s, p);
      && (r == [] || (!p.Has(r[0]) && !p.Has(r[|r| - 1])))
      && a + |r| <= |s| && r == s[a..a + |r|]
      && (forall i :: 0 <= i < a ==> p.Has(s[i]))
      && (forall i :: a + |r| <= i < |s| ==> p.Has(s[i]))
  {
    TrimMatchesFirst(s, p);
    TrimMatchesLast(s, p);
    LeadingRunSpec(s, p);
    TrimMatchesSuffix(s, p);
  }

  lemma TrimMatchesFirst(s: string, p: CharClass)
    ensures var r := TrimMatches(s, p);
      r == [] || !p.Has(r[0])
  {
    var a := LeadingRun(s, p);
    var r := TrimMatches(s, p);
    if r != [] {
      LeadingRunSpec(s, p);
      assert r[0] == s[a];
    }
  }

  lemma TrimMatchesLast(s: string, p: CharClass)
    ensures var r := TrimMatches(s, p);
      r == [] || !p.Has(r[|r| - 1])
  {
    var a := LeadingRun(s, p);
    var rest := s[a..];
    var t := TrailingRun(rest, p);
    var r := TrimMatches(s, p);
    if r != [] {
      TrailingRunSpec(rest, p);
      assert r[|r| - 1] == rest[|rest| - 1 - t];
    }
  }

  lemma TrimMatchesSuffix(s: string, p: CharClass)
    ensures forall i :: LeadingRun(s, p) + |TrimMatches(s, p)| <= i < |s| ==> p.Has(s[i])
  {
    var a := LeadingRun(s, p);
    var rest := s[a..];
    TrailingRunSpec(rest, p);
    forall i | a + |TrimMatches(s, p)| <= i < |s| ensures p.Has(s[i]) {
      assert s[i] == rest[i - a];
    }
  }

  /** `str::trim`. */
  function Trim(s: string): string {
    TrimMatches(s, Whitespace)
  }

  /** A string that neither starts nor ends with whitespace is its own `trim`. */
  lemma TrimUnchanged(s: string)
    requires s == [] || (!IsWhitespace(s[0]) && !IsWhitespace(s[|s| - 1]))
    ensures Trim(s) == s
  {
    assert [] + s + [] == s;
    TrimMatchesUnique([], s, [], Whitespace);
  }

  /** Removing the characters a second time removes nothing more. */
  lemma TrimMatchesIdempotent(s: string, p: CharClass)
    ensures TrimMatches(TrimMatches(s, p), p) == TrimMatches(s, p)
  {
    var r := TrimMatches(s, p);
    TrimMatchesFirst(s, p);
    TrimMatchesLast(s, p);
    if r != [] {
      assert LeadingRun(r, p) == 0;
      assert r[0..] == r;
      assert TrailingRun(r, p) == 0;
    }
  }

  lemma {:induction false} LeadingRunPrefix(u: string, v: string, p: CharClass)
    requires forall i :: 0 <= i < |u| ==> p.Has(u[i])
    ensures LeadingRun(u + v, p) == |u| + LeadingRun(v, p)
  {
    if u != [] {
      assert (u + v)[1..] == u[1..] + v;
      LeadingRunPrefix(u[1..], v, p);
    } else {
      assert u + v == v;
    }
  }

  lemma {:induction false} TrailingRunSuffix(u: string, v: string, p: CharClass)
    requires forall i :: 0 <= i < |v| ==> p.Has(v[i])
    ensures TrailingRun(u + v, p) == TrailingRun(u, p) + |v|
  {
    if v != [] {
      assert (u + v)[..|u + v| - 1] == u + v[..|v| - 1];
      TrailingRunSuffix(u, v[..|v| - 1], p);
    } else {
      assert u + v == u;
    }
  }

  /** A string made only of `p` characters trims to nothing. */
  lemma TrimMatchesAll(s: string, p: CharClass)
    requires forall i :: 0 <= i < |s| ==> p.Has(s[i])
    ensures TrimMatches(s, p) == []
  {
    LeadingRunPrefix(s, [], p);
    assert s + [] == s;
  }

  /** The leading run of `u + core + v` is `u` when `core` starts with another character. */
  lemma LeadingRunCore(u: string, core: string, v: string, p: CharClass)
    requires forall i :: 0 <= i < |u| ==> p.Has(u[i])
    requires core != [] && !p.Has(core[0])
    ensures LeadingRun(u + core + v, p) == |u|
    ensures (u + core + v)[|u|..] == core + v
  {
    assert u + core + v == u + (core + v);
    LeadingRunPrefix(u, core + v, p);
    assert (core + v)[0] == core[0];
  }

  /** The trailing run of `core + v` is `v` when `core` ends with another character. */
  lemma TrailingRunCore(core: string, v: string, p: CharClass)
    requires forall i :: 0 <= i < |v| ==> p.Has(v[i])
    requires core != [] && !p.Has(core[|core| - 1])
    ensures TrailingRun(core + v, p) == |v|
  {
    TrailingRunSuffix(core, v, p);
  }

  /** Any split of `s` into a removable prefix, a core that neither starts nor
      ends with a removable character, and a removable suffix is the one
      `TrimMatches` finds. */
  lemma {:induction false} TrimMatchesUnique(u: string, core: string, v: string, p: CharClass)
    requires forall i :: 0 <= i < |u| ==> p.Has(u[i])
    requires forall i :: 0 <= i < |v| ==> p.Has(v[i])
    requires core == [] || (!p.Has(core[0]) && !p.Has(core[|core| - 1]))
    ensures TrimMatches(u + core + v, p) == core
  {
    var s := u + core + v;
    if core == [] {
      assert s == u + v;
      assert forall i :: 0 <= i < |s| ==> p.Has(s[i]) by {
        forall i | 0 <= i < |s| ensures p.Has(s[i]) {
          if i >= |u| { assert s[i] == v[i - |u|]; }
        }
      }
      TrimMatchesAll(s, p);
    } else {
      LeadingRunCore(u, core, v, p);
      TrailingRunCore(core, v, p);
      assert s[|u|..|s| - |v|] == core;
    }
  }

  // ---------------------------------------------------------------------------
  // Searching

  /** `str::find(c)`: the index of the first occurrence of `c`. */
  function Find(s: string, c: char): (r: Option<nat>)
    ensures r.None? <==> c !in s
    ensures r.Some? ==> r.value < |s| && s[r.value] == c
  {
    if s == [] then None
    else if s[0] == c then Some(0)
    else
      match Find(s[1..], c)
      case None => None
      case Some(i) => Some(i + 1)
  }

  /** No earlier character is `c`. */
  lemma {:induction false} FindFirst(s: string, c: char)
    requires Find(s, c).Some?
    ensures c !in s[..Find(s, c).value]
  {
    if s[0] != c {
      var i := Find(s[1..], c).value;
      FindFirst(s[1..], c);
      assert s[..i + 1] == [s[0]] + s[1..][..i];
    }
  }

  /** `pat` occurs in `s` starting at index `i`. */
  predicate OccursAt(s: string, pat: string, i: nat) {
    i + |pat| <= |s| && s[i..i + |pat|] == pat
  }

  /** An occurrence at `k + j` is an occurrence at `j` of the text from `k` on. */
  lemma OccursAtShift(s: string, pat: string, k: nat, j: nat)
    requires k <= |s|
    ensures OccursAt(s, pat, k + j) <==> OccursAt(s[k..], pat, j)
  {
    if k + j + |pat| <= |s| {
      assert s[k..][j..j + |pat|] == s[k + j..k + j + |pat|];
    }
  }

  /** No occurrence among the first `n` starts of the text from `k` on is none
      among the starts `k` to `k + n` of the whole text. */
  lemma NoOccurrenceShift(s: string, pat: string, k: nat, rest: string, n: nat)
    requires k <= |s| && rest == s[k..]
    requires forall j :: 0 <= j < n ==> !OccursAt(rest, pat, j)
    ensures forall j :: k <= j < k + n ==> !OccursAt(s, pat, j)
  {
    forall j | k <= j < k + n ensures !OccursAt(s, pat, j) {
      OccursAtShift(s, pat, k, j - k);
    }
  }

  /** An occurrence at `j` > 0 is an occurrence at `j - 1` of the tail. */
  lemma OccursAtTail(s: string, pat: string, j: nat)
    requires 1 <= j && s != []
    ensures OccursAt(s, pat, j) <==> OccursAt(s[1..], pat, j - 1)
  {
    OccursAtShift(s, pat, 1, j - 1);
  }

  /** `str::find(pat)`: the index of the first occurrence of `pat` in `s`. */
  function FindStr(s: string, pat: string): (r: Option<nat>)
    ensures r.Some? ==> OccursAt(s, pat, r.value)
    decreases |s|
  {
    if |s| < |pat| then None
    else if s[..|pat|] == pat then Some(0)
    else
      match FindStr(s[1..], pat)
      case None => None
      case Some(i) =>
        OccursAtTail(s, pat, i + 1);
        Some(i + 1)
  }

  /** The occurrence found is the first, and none is missed. */
  lemma {:induction false} FindStrFirst(s: string, pat: string)
    ensures FindStr(s, pat).Some? ==> forall j :: 0 <= j < FindStr(s, pat).value ==> !OccursAt(s, pat, j)
    ensures FindStr(s, pat).None? ==> forall j :: 0 <= j <= |s| ==> !OccursAt(s, pat, j)
    decreases |s|
  {
    if |s| >= |pat| && s[..|pat|] != pat {
      FindStrFirst(s[1..], pat);
      forall j | 1 <= j <= |s| {
        OccursAtTail(s, pat, j);
      }
    }
  }

  /** `pat` occurs nowhere in `s`. */
  predicate Absent(s: string, pat: string) {
    forall j :: 0 <= j <= |s| ==> !OccursAt(s, pat, j)
  }

  /** A text without `pat` is one where `str::find` finds nothing. */
  lemma AbsentFindStr(s: string, pat: string)
    requires Absent(s, pat)
    ensures FindStr(s, pat).None?
  {
  }

  /** `pat` cannot occur across a character it does not hold. */
  lemma AbsentAround(a: string, c: char, b: string, pat: string)
    requires c !in pat && Absent(a, pat) && Absent(b, pat)
    ensures Absent(a + [c] + b, pat)
  {
    var s := a + [c] + b;
    forall j | 0 <= j <= |s| ensures !OccursAt(s, pat, j) {
      if j + |pat| <= |a| {
        assert s[j..j + |pat|] == a[j..j + |pat|];
        assert !OccursAt(a, pat, j);
      } else if j > |a| {
        if j + |pat| <= |s| {
          assert s[j..j + |pat|] == b[j - |a| - 1..j - |a| - 1 + |pat|];
          assert !OccursAt(b, pat, j - |a| - 1);
        }
      } else {
        if j + |pat| <= |s| {
          assert s[j..j + |pat|][|a| - j] == c;
        }
      }
    }
  }

  /** A text misses `pat` when it misses one of its characters. */
  lemma AbsentByChar(s: string, pat: string, c: char)
    requires c in pat && c !in s
    ensures Absent(s, pat)
  {
  }

  /** `pat` placed after a text without it, whose last character it does not
      hold, is found right there. */
  lemma FirstOccurrence(a: string, pat: string, b: string)
    requires pat != [] && Absent(a, pat) && (a == [] || a[|a| - 1] !in pat)
    ensures FindStr(a + pat + b, pat) == Some(|a|)
  {
    var s := a + pat + b;
    assert s[|a|..|a| + |pat|] == pat;
    assert OccursAt(s, pat, |a|);
    FindStrFirst(s, pat);
    forall j: nat | j < |a| ensures !OccursAt(s, pat, j) {
      if j + |pat| <= |a| {
        assert s[j..j + |pat|] == a[j..j + |pat|];
        assert !OccursAt(a, pat, j);
      } else {
        if j + |pat| <= |s| {
          assert s[j..j + |pat|][|a| - 1 - j] == a[|a| - 1];
        }
      }
    }
  }

  /** The first `c` of `s` is at `k` when `s[k]` is `c` and none comes before. */
  lemma FindAt(s: string, c: char, k: nat)
    requires k < |s| && s[k] == c && c !in s[..k]
    ensures Find(s, c) == Some(k)
  {
    FindFirst(s, c);
    var i := Find(s, c).value;
    forall j | 0 <= j < k ensures s[j] != c {
      assert s[..k][j] == s[j];
    }
    forall j | 0 <= j < i ensures s[j] != c {
      assert s[..i][j] == s[j];
    }
  }

  /** Parts without `pat`, joined by a character `pat` does not hold, make a text without `pat`. */
  lemma {:induction false} AbsentJoin(parts: seq<string>, c: char, pat: string)
    requires pat != [] && c !in pat
    requires forall i :: 0 <= i < |parts| ==> Absent(parts[i], pat)
    ensures Absent(Join(parts, [c]), pat)
  {
    if |parts| > 1 {
      AbsentJoin(parts[1..], c, pat);
      AbsentAround(parts[0], c, Join(parts[1..], [c]), pat);
    }
  }

  /** The index of the first string of `parts` whose upper-cased form is `keyword`:
      `parts.iter().position(|s| s.to_uppercase() == keyword)`. */
  function PositionIgnoringCase(parts: seq<string>, keyword: string): (r: Option<nat>)
    ensures r.Some? ==> r.value < |parts| && Upper(parts[r.value]) == keyword
  {
    if parts == [] then None
    else if Upper(parts[0]) == keyword then Some(0)
    else
      match PositionIgnoringCase(parts[1..], keyword)
      case None => None
      case Some(i) => Some(i + 1)
  }

  /** No earlier string matches, and none matches when nothing is found. */
  lemma {:induction false} PositionIgnoringCaseFirst(parts: seq<string>, keyword: string)
    ensures var r := PositionIgnoringCase(parts, keyword);
      && (r.Some? ==> forall j :: 0 <= j < r.value ==> Upper(parts[j]) != keyword)
      && (r.None? ==> forall j :: 0 <= j < |parts| ==> Upper(parts[j]) != keyword)
  {
    if parts != [] && Upper(parts[0]) != keyword {
      PositionIgnoringCaseFirst(parts[1..], keyword);
      assert forall j :: 1 <= j < |parts| ==> parts[j] == parts[1..][j - 1];
    }
  }

  // ---------------------------------------------------------------------------
  // Splitting and joining

  /** `[String]::join(sep)`. */
  function Join(parts: seq<string>, sep: string): string {
    if parts == [] then []
    else if |parts| == 1 then parts[0]
    else parts[0] + sep + Join(parts[1..], sep)
  }

  /** The joined string starts with the first part's first character and ends
      with the last part's last character. */
  lemma {:induction false} JoinEnds(parts: seq<string>, sep: string)
    requires parts != [] && parts[0] != [] && parts[|parts| - 1] != []
    ensures var s := Join(parts, sep); var last := parts[|parts| - 1];
      s != [] && s[0] == parts[0][0] && s[|s| - 1] == last[|last| - 1]
  {
    if |parts| > 1 {
      JoinEndsLast(parts[1..], sep);
    }
  }

  lemma {:induction false} JoinEndsLast(parts: seq<string>, sep: string)
    requires parts != [] && parts[|parts| - 1] != []
    ensures var s := Join(parts, sep); var last := parts[|parts| - 1];
      s != [] && s[|s| - 1] == last[|last| - 1]
  {
    if |parts| > 1 {
      JoinEndsLast(parts[1..], sep);
    }
  }

  /** A character in no part and not in the separator is not in the joined string. */
  lemma {:induction false} JoinExcludes(parts: seq<string>, sep: string, c: char)
    requires forall i :: 0 <= i < |parts| ==> c !in parts[i]
    requires c !in sep
    ensures c !in Join(parts, sep)
  {
    if |parts| > 1 {
      JoinExcludes(parts[1..], sep, c);
    }
  }

  /** Words joined with a separator without whitespace make one word. */
  lemma {:induction false} JoinIsWord(ws: seq<string>, sep: string)
    requires ws != [] && AllWords(ws)
    requires forall i :: 0 <= i < |sep| ==> IsWordChar(sep[i])
    ensures IsWord(Join(ws, sep))
  {
    if |ws| > 1 {
      JoinIsWord(ws[1..], sep);
      var u := ws[0] + sep;
      var v := Join(ws[1..], sep);
      assert IsWord(ws[0]);
      forall i | 0 <= i < |u + v| ensures IsWordChar((u + v)[i]) {
        if i < |ws[0]| {
          assert (u + v)[i] == ws[0][i];
        } else if i < |u| {
          assert (u + v)[i] == sep[i - |ws[0]|];
        } else {
          assert (u + v)[i] == v[i - |u|];
        }
      }
    }
  }

  /** `str::split(sep)`: the pieces between the occurrences of `sep`; there is
      always at least one. */
  function Split(s: string, sep: char): (parts: seq<string>)
    ensures |parts| >= 1
    decreases |s|
  {
    match Find(s, sep)
    case None => [s]
    case Some(i) => [s[..i]] + Split(s[i + 1..], sep)
  }

  /** No piece holds `sep`, and joining the pieces with `sep` gives back `s`. */
  lemma {:induction false} SplitSpec(s: string, sep: char)
    ensures var parts := Split(s, sep);
      && (forall i :: 0 <= i < |parts| ==> sep !in parts[i])
      && Join(parts, [sep]) == s
    decreases |s|
  {
    match Find(s, sep)
    case None =>
    case Some(i) =>
      FindFirst(s, sep);
      var tail := Split(s[i + 1..], sep);
      SplitSpec(s[i + 1..], sep);
      assert Split(s, sep) == [s[..i]] + tail;
      assert ([s[..i]] + tail)[1..] == tail;
      assert s == s[..i] + [sep] + s[i + 1..];
  }

  /** There is one piece more than there are separators. */
  lemma {:induction false} SplitCount(s: string, sep: char)
    ensures |Split(s, sep)| == multiset(s)[sep] + 1
    decreases |s|
  {
    match Find(s, sep)
    case None =>
      assert sep !in multiset(s);
    case Some(i) =>
      FindFirst(s, sep);
      SplitCount(s[i + 1..], sep);
      assert s == s[..i] + [sep] + s[i + 1..];
      assert sep !in multiset(s[..i]);
  }

  /** A prefix of a suffix is a slice. */
  lemma SliceOfSuffix(s: string, start: nat, n: nat)
    requires start + n <= |s|
    ensures s[start..][..n] == s[start..start + n]
  {
  }

  /** The first piece is the text before the first `sep` (all of `s` when there
      is none), and the rest are the pieces of the text after it. */
  lemma SplitHead(s: string, sep: char)
    ensures var parts := Split(s, sep);
      && |parts[0]| <= |s| && parts[0] == s[..|parts[0]|] && sep !in parts[0]
      && (|parts| == 1 <==> sep !in s)
      && (|parts[0]| < |s| ==> s[|parts[0]|] == sep)
      && (|parts| >= 2 ==> |parts[0]| < |s| && parts[1..] == Split(s[|parts[0]| + 1..], sep))
  {
    match Find(s, sep)
    case None =>
      assert s[..|s|] == s;
    case Some(i) =>
      FindFirst(s, sep);
  }

  /** The first piece of the text from `start` on is the slice that starts there
      and stops at the next `sep` or at the end. */
  lemma SplitHeadAt(s: string, start: nat, sep: char)
    requires start <= |s|
    ensures var v := Split(s[start..], sep)[0];
      && start + |v| <= |s| && v == s[start..start + |v|] && sep !in v
      && (start + |v| < |s| ==> s[start + |v|] == sep)
  {
    SplitHead(s[start..], sep);
    var v := Split(s[start..], sep)[0];
    SliceOfSuffix(s, start, |v|);
    if start + |v| < |s| {
      assert s[start + |v|] == s[start..][|v|];
    }
  }

  /** When `sep` occurs, the second piece is the first piece of the text after
      the first `sep`. */
  lemma SplitSecondPiece(s: string, sep: char)
    requires sep in s
    ensures |Split(s, sep)| >= 2
    ensures Split(s, sep)[1] == Split(s[Find(s, sep).value + 1..], sep)[0]
  {
  }

  /** Splitting a joined list gives the list back when no part holds the separator. */
  lemma {:induction false} SplitJoin(parts: seq<string>, sep: char)
    requires |parts| >= 1
    requires forall i :: 0 <= i < |parts| ==> sep !in parts[i]
    ensures Split(Join(parts, [sep]), sep) == parts
  {
    if |parts| > 1 {
      var s := Join(parts, [sep]);
      var rest := Join(parts[1..], [sep]);
      assert s == parts[0] + [sep] + rest;
      assert s[..|parts[0]|] == parts[0];
      assert s[|parts[0]|] == sep;
      assert Find(s, sep) == Some(|parts[0]|) by {
        FindFirst(s, sep);
      }
      assert s[|parts[0]| + 1..] == rest;
      SplitJoin(parts[1..], sep);
    } else {
      assert Find(parts[0], sep).None?;
    }
  }

  /** The text up to the first occurrence of `pat`, or all of it. */
  function PieceUpTo(rest: string, pat: string): (r: string)
    requires pat != []
    ensures |r| <= |rest| && r == rest[..|r|]
  {
    match FindStr(rest, pat)
    case None => rest
    case Some(j) => rest[..j]
  }

  /** `s.split(pat).nth(1)`: the text between the first occurrence of `pat` and
      the next one (or the end of `s`), or None when `pat` does not occur. */
  function SplitStrSecond(s: string, pat: string): (r: Option<string>)
    requires pat != []
    ensures r.None? <==> FindStr(s, pat).None?
    ensures r.Some? ==>
      var i := FindStr(s, pat).value;
      i + |pat| + |r.value| <= |s| && r.value == s[i + |pat|..i + |pat| + |r.value|]
  {
    match FindStr(s, pat)
    case None => None
    case Some(i) => Some(PieceUpTo(s[i + |pat|..], pat))
  }

  /** An occurrence inside a prefix is an occurrence in the whole string. */
  lemma OccursAtPrefix(t: string, pat: string, j: nat, k: nat)
    requires j <= |t| && OccursAt(t[..j], pat, k)
    ensures OccursAt(t, pat, k)
  {
    assert t[..j][k..k + |pat|] == t[k..k + |pat|];
  }

  /** The piece holds no occurrence of `pat`, no occurrence of `pat` in the
      text starts inside it (not even one running past its end), and it is all
      of the text or stops exactly where `pat` occurs. */
  lemma PieceUpToSpec(rest: string, pat: string)
    requires pat != []
    ensures var piece := PieceUpTo(rest, pat);
      && (forall j :: 0 <= j <= |piece| - |pat| ==> !OccursAt(piece, pat, j))
      && (forall j :: 0 <= j < |piece| ==> !OccursAt(rest, pat, j))
      && (piece == rest || OccursAt(rest, pat, |piece|))
  {
    FindStrFirst(rest, pat);
    match FindStr(rest, pat)
    case None =>
    case Some(j) =>
      forall k: nat | OccursAt(rest[..j], pat, k) ensures OccursAt(rest, pat, k) {
        OccursAtPrefix(rest, pat, j, k);
      }
  }

  /** The piece after the first occurrence of `pat` (at `i`) holds no further
      occurrence of `pat`; no later occurrence starts inside it, even for a
      pattern that overlaps itself; and it is all the rest of `s` or stops
      right where `pat` occurs again. */
  lemma SplitStrSecondSpec(s: string, pat: string, i: nat, piece: string)
    requires pat != []
    requires FindStr(s, pat) == Some(i) && SplitStrSecond(s, pat) == Some(piece)
    ensures forall j :: 0 <= j <= |piece| - |pat| ==> !OccursAt(piece, pat, j)
    ensures forall j :: i + |pat| <= j < i + |pat| + |piece| ==> !OccursAt(s, pat, j)
    ensures piece == s[i + |pat|..] || OccursAt(s[i + |pat|..], pat, |piece|)
  {
    var rest := s[i + |pat|..];
    PieceUpToSpec(rest, pat);
    NoOccurrenceShift(s, pat, i + |pat|, rest, |piece|);
  }

  /** `str::split_whitespace`: the maximal runs of non-whitespace characters, in order. */
  function SplitWhitespace(s: string): (ws: seq<string>)
    decreases |s|
  {
    var a := LeadingRun(s, Whitespace);
    if a == |s| then []
    else
      var rest := s[a..];
      var n := LeadingRun(rest, NonWhitespace);
      [rest[..n]] + SplitWhitespace(rest[n..])
  }

  /** The first token is a word, and the tokens after it are those of the rest. */
  lemma SplitWhitespaceHead(s: string)
    requires LeadingRun(s, Whitespace) < |s|
    ensures var rest := s[LeadingRun(s, Whitespace)..];
      var n := LeadingRun(rest, NonWhitespace);
      && IsWord(rest[..n])
      && SplitWhitespace(s) == [rest[..n]] + SplitWhitespace(rest[n..])
  {
    var a := LeadingRun(s, Whitespace);
    LeadingRunSpec(s, Whitespace);
    var rest := s[a..];
    LeadingRunSpec(rest, NonWhitespace);
    assert rest[0] == s[a];
  }

  lemma AllWordsCons(w: string, ws: seq<string>)
    requires IsWord(w) && AllWords(ws)
    ensures AllWords([w] + ws)
  {
    forall i | 0 < i < |[w] + ws| ensures IsWord(([w] + ws)[i]) {
      assert ([w] + ws)[i] == ws[i - 1];
    }
  }

  /** Every token is a word. */
  lemma {:induction false} SplitWhitespaceWords(s: string)
    ensures AllWords(SplitWhitespace(s))
    decreases |s|
  {
    var a := LeadingRun(s, Whitespace);
    if a < |s| {
      var rest := s[a..];
      var n := LeadingRun(rest, NonWhitespace);
      SplitWhitespaceHead(s);
      SplitWhitespaceWords(rest[n..]);
      AllWordsCons(rest[..n], SplitWhitespace(rest[n..]));
    }
  }

  /** Leading whitespace makes no token. */
  lemma {:induction false} SplitWhitespaceSkip(pre: string, t: string)
    requires forall i :: 0 <= i < |pre| ==> IsWhitespace(pre[i])
    ensures SplitWhitespace(pre + t) == SplitWhitespace(t)
  {
    var s := pre + t;
    var a := LeadingRun(s, Whitespace);
    var b := LeadingRun(t, Whitespace);
    LeadingRunPrefix(pre, t, Whitespace);
    assert a == |pre| + b;
    assert s[a..] == t[b..];
  }

  /** A word followed by whitespace (or by nothing) is the first token. */
  lemma {:induction false} SplitWhitespaceCons(w: string, rest: string)
    requires IsWord(w)
    requires rest == [] || IsWhitespace(rest[0])
    ensures SplitWhitespace(w + rest) == [w] + SplitWhitespace(rest)
  {
    var s := w + rest;
    assert s[0] == w[0];
    assert LeadingRun(s, Whitespace) == 0;
    assert s[0..] == s;
    LeadingRunPrefix(w, rest, NonWhitespace);
    assert LeadingRun(rest, NonWhitespace) == 0;
    assert LeadingRun(s, NonWhitespace) == |w|;
    assert s[..|w|] == w && s[|w|..] == rest;
  }

  /** A word, a space and more text: the word is the first token. */
  lemma SplitWhitespaceWordSpace(w: string, rest: string)
    requires IsWord(w)
    ensures SplitWhitespace(w + " " + rest) == [w] + SplitWhitespace(rest)
  {
    var t := " " + rest;
    assert w + " " + rest == w + t;
    assert SplitWhitespace(t) == SplitWhitespace(rest) by {
      SplitWhitespaceSkip(" ", rest);
    }
    assert SplitWhitespace(w + t) == [w] + SplitWhitespace(t) by {
      assert t[0] == ' ';
      SplitWhitespaceCons(w, t);
    }
  }

  /** Words written with single spaces before more text are its first tokens. */
  lemma {:induction false} SplitWhitespaceLeading(ws: seq<string>, rest: string)
    requires ws != [] && AllWords(ws)
    ensures SplitWhitespace(Join(ws, " ") + " " + rest) == ws + SplitWhitespace(rest)
  {
    if |ws| == 1 {
      assert Join(ws, " ") == ws[0];
      SplitWhitespaceWordSpace(ws[0], rest);
      assert ws == [ws[0]];
    } else {
      var tail := Join(ws[1..], " ");
      var after := tail + " " + rest;
      calc {
        SplitWhitespace(Join(ws, " ") + " " + rest);
        { assert Join(ws, " ") + " " + rest == ws[0] + " " + after; }
        SplitWhitespace(ws[0] + " " + after);
        { SplitWhitespaceWordSpace(ws[0], after); }
        [ws[0]] + SplitWhitespace(after);
        { SplitWhitespaceLeading(ws[1..], rest); }
        [ws[0]] + (ws[1..] + SplitWhitespace(rest));
        { assert ws == [ws[0]] + ws[1..]; }
        ws + SplitWhitespace(rest);
      }
    }
  }

  /** Joining words with single spaces and splitting on whitespace gives the words back. */
  lemma {:induction false} SplitWhitespaceJoin(ws: seq<string>)
    requires AllWords(ws)
    ensures SplitWhitespace(Join(ws, " ")) == ws
  {
    if ws == [] {
      assert LeadingRun([], Whitespace) == 0;
    } else if |ws| == 1 {
      SplitWhitespaceCons(ws[0], []);
      assert ws[0] + [] == ws[0];
      assert LeadingRun([], Whitespace) == 0;
    } else {
      SplitWhitespaceJoin(ws[1..]);
      SplitWhitespaceWordSpace(ws[0], Join(ws[1..], " "));
    }
  }

  // ---------------------------------------------------------------------------
  // A character-by-character reference for `split_whitespace`

  /** Copies the non-whitespace characters of `s` in order, writing one space
      between two of them exactly when whitespace separates them. `emitted`
      says a character has already been written, `gap` that a space is owed
      before the next one. */
  function Squash(s: string, emitted: bool, gap: bool): string
    decreases |s|
  {
    if s == [] then []
    else if IsWhitespace(s[0]) then Squash(s[1..], emitted, emitted)
    else (if gap then " " else []) + [s[0]] + Squash(s[1..], true, false)
  }

  /** `s` with leading and trailing whitespace dropped and every inner run of
      whitespace replaced by a single space. */
  function Collapse(s: string): string {
    Squash(s, false, false)
  }

  /** Whitespace before the text only owes a space if something was written. */
  lemma {:induction false} SquashSpaces(pre: string, t: string, emitted: bool, gap: bool)
    requires forall i :: 0 <= i < |pre| ==> IsWhitespace(pre[i])
    ensures Squash(pre + t, emitted, gap) == Squash(t, emitted, if pre == [] then gap else emitted)
    decreases |pre|
  {
    if pre == [] {
      assert pre + t == t;
    } else {
      assert (pre + t)[0] == pre[0] && (pre + t)[1..] == pre[1..] + t;
      SquashSpaces(pre[1..], t, emitted, emitted);
    }
  }

  /** A word is copied as it is, after the space owed before it. */
  lemma {:induction false} SquashWord(w: string, t: string, emitted: bool, gap: bool)
    requires IsWord(w)
    ensures Squash(w + t, emitted, gap) == (if gap then " " else []) + w + Squash(t, true, false)
    decreases |w|
  {
    assert (w + t)[0] == w[0] && (w + t)[1..] == w[1..] + t;
    if |w| > 1 {
      SquashWord(w[1..], t, true, false);
      assert w == [w[0]] + w[1..];
    } else {
      assert w == [w[0]];
    }
  }

  /** The leading whitespace of a text is skipped; it owes a space only after
      something was written, and then the text is empty or starts with it. */
  lemma SquashSkip(s: string, emitted: bool)
    requires !emitted || s == [] || IsWhitespace(s[0])
    ensures var a := LeadingRun(s, Whitespace);
      Squash(s, emitted, false) == Squash(s[a..], emitted, emitted || a == |s|)
  {
    var a := LeadingRun(s, Whitespace);
    LeadingRunSpec(s, Whitespace);
    assert s == s[..a] + s[a..];
    SquashSpaces(s[..a], s[a..], emitted, false);
  }

  /** The first token of a text that starts with one is copied, and what
      follows it is empty or starts with whitespace. */
  lemma SquashToken(t: string, emitted: bool)
    requires t != [] && !IsWhitespace(t[0])
    ensures var n := LeadingRun(t, NonWhitespace);
      && IsWord(t[..n])
      && Squash(t, emitted, emitted) == (if emitted then " " else []) + t[..n] + Squash(t[n..], true, false)
      && (t[n..] == [] || IsWhitespace(t[n..][0]))
  {
    var n := LeadingRun(t, NonWhitespace);
    LeadingRunSpec(t, NonWhitespace);
    assert t == t[..n] + t[n..];
    SquashWord(t[..n], t[n..], emitted, emitted);
  }

  /** A word before single-space-joined words. */
  lemma JoinCons(w: string, ws: seq<string>)
    ensures Join([w] + ws, " ") == if ws == [] then w else w + " " + Join(ws, " ")
  {
    if ws != [] {
      assert ([w] + ws)[1..] == ws;
    }
  }

  /** A token written after the space it owes, then the rest written from
      the following tokens, is the space and all the tokens joined. */
  lemma SquashJoinStep(written: string, space: string, w: string, tail: string, ws: seq<string>)
    requires written == space + w + tail
    requires tail == if ws == [] then [] else " " + Join(ws, " ")
    ensures written == space + Join([w] + ws, " ")
  {
    JoinCons(w, ws);
  }

  /** The tokens, joined by single spaces, are what `Squash` writes; after a
      token, only text that starts with whitespace (or is empty) follows. */
  lemma {:induction false} SquashSplit(s: string, emitted: bool)
    requires !emitted || s == [] || IsWhitespace(s[0])
    ensures var ws := SplitWhitespace(s);
      Squash(s, emitted, false) == if ws == [] then [] else (if emitted then " " else []) + Join(ws, " ")
    decreases |s|
  {
    var a := LeadingRun(s, Whitespace);
    SquashSkip(s, emitted);
    if a < |s| {
      var t := s[a..];
      LeadingRunSpec(s, Whitespace);
      SquashToken(t, emitted);
      SplitWhitespaceHead(s);
      var n := LeadingRun(t, NonWhitespace);
      SquashSplit(t[n..], true);
      SquashJoinStep(Squash(s, emitted, false), if emitted then " " else [], t[..n], Squash(t[n..], true, false), SplitWhitespace(t[n..]));
    }
  }

  /** The tokens of `split_whitespace` joined by single spaces are the text
      with its whitespace collapsed. */
  lemma SplitWhitespaceCollapse(s: string)
    ensures Join(SplitWhitespace(s), " ") == Collapse(s)
  {
    SquashSplit(s, false);
  }

  /** The tokens are the only words that join to the collapsed text: together
      with `SplitWhitespaceWords` this fixes them as the maximal runs of
      non-whitespace characters, in order. */
  lemma SplitWhitespaceUnique(s: string, ws: seq<string>)
    requires AllWords(ws) && Join(ws, " ") == Collapse(s)
    ensures ws == SplitWhitespace(s)
  {
    SplitWhitespaceCollapse(s);
    SplitWhitespaceWords(s);
    SplitWhitespaceJoin(ws);
    SplitWhitespaceJoin(SplitWhitespace(s));
  }
}
