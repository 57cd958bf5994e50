/** The Python `str` operations that the title extractor and the segment merger
    rely on, over strings as sequences of characters: `strip`, `lstrip`,
    `startswith`, `in`, `split(sep)`, `split()` and `lower`. */
module Text {
  import opened Wrappers

  /** The characters Python 3's `str.isspace()` accepts; `str.strip()` and
      `str.split()` without arguments treat exactly these as whitespace. */
  predicate IsSpace(c: char) {
    '\t' <= c <= '\r' || '\U{1C}' <= c <= ' ' || c == '\U{85}' || c == '\U{A0}' ||
    c == '\U{1680}' || '\U{2000}' <= c <= '\U{200A}' || c == '\U{2028}' || c == '\U{2029}' ||
    c == '\U{202F}' || c == '\U{205F}' || c == '\U{3000}'
  }

  /** Neither the first nor the last character is whitespace. */
  predicate Trimmed(s: string) {
    s == [] || (!IsSpace(s[0]) && !IsSpace(s[|s| - 1]))
  }

  /** Python's `s.startswith(p)`. */
  predicate StartsWith(s: string, p: string) {
    |p| <= |s| && s[..|p|] == p
  }

  /** Python's `s.endswith(p)`. */
  predicate EndsWith(s: string, p: string) {
    |p| <= |s| && s[|s| - |p|..] == p
  }

  /** `p` occurs in `s` starting at index `i`. */
  predicate OccursAt(s: string, p: string, i: int) {
    0 <= i <= |s| - |p| && s[i..i + |p|] == p
  }

  /** Python's `p in s`: `p` occurs somewhere in `s`. */
  predicate Contains(s: string, p: string) {
    exists i | 0 <= i <= |s| :: OccursAt(s, p, i)
  }

  /** An occurrence inside a slice is an occurrence in the whole string. */
  lemma ContainsSlice(s: string, a: nat, b: nat, p: string)
    requires a <= b <= |s|
    requires Contains(s[a..b], p)
    ensures Contains(s, p)
  {
    var i :| 0 <= i <= b - a && OccursAt(s[a..b], p, i);
    assert 0 <= i && i + |p| <= b - a;
    SliceOfSlice(s, a, b, i, i + |p|);
    assert OccursAt(s, p, a + i);
  }

  lemma SliceOfSlice(s: string, a: int, b: int, i: int, j: int)
    requires 0 <= a <= b <= |s| && 0 <= i <= j <= b - a
    ensures s[a..b][i..j] == s[a + i..a + j]
  {
    var x, y := s[a..b][i..j], s[a + i..a + j];
    assert |x| == |y|;
    forall k | 0 <= k < |x| ensures x[k] == y[k] {
      assert x[k] == s[a + i + k];
    }
  }

  /** The first index at or after `i` whose character `drop` rejects, or `|s|`. */
  function SkipFrom(s: string, drop: char -> bool, i: nat): (j: nat)
    requires i <= |s|
    ensures i <= j <= |s|
    decreases |s| - i
  {
    if i < |s| && drop(s[i]) then SkipFrom(s, drop, i + 1) else i
  }

  lemma {:induction false} SkipFromSpec(s: string, drop: char -> bool, i: nat)
    requires i <= |s|
    ensures forall k :: i <= k < SkipFrom(s, drop, i) ==> drop(s[k])
    ensures SkipFrom(s, drop, i) < |s| ==> !drop(s[SkipFrom(s, drop, i)])
    decreases |s| - i
  {
    if i < |s| && drop(s[i]) {
      SkipFromSpec(s, drop, i + 1);
    }
  }

  /** The end of `s[lo..j]` once the characters `drop` accepts are removed
      from its back. */
  function SkipBack(s: string, drop: char -> bool, lo: nat, j: nat): (e: nat)
    requires lo <= j <= |s|
    ensures lo <= e <= j
    decreases j
  {
    if lo < j && drop(s[j - 1]) then SkipBack(s, drop, lo, j - 1) else j
  }

  lemma {:induction false} SkipBackSpec(s: string, drop: char -> bool, lo: nat, j: nat)
    requires lo <= j <= |s|
    ensures forall k :: SkipBack(s, drop, lo, j) <= k < j ==> drop(s[k])
    ensures lo < SkipBack(s, drop, lo, j) ==> !drop(s[SkipBack(s, drop, lo, j) - 1])
    decreases j
  {
    if lo < j && drop(s[j - 1]) {
      SkipBackSpec(s, drop, lo, j - 1);
    }
  }

  /** Python's `s.lstrip(chars)`: drops the longest prefix of characters `drop` accepts. */
  function LStrip(s: string, drop: char -> bool): string {
    s[SkipFrom(s, drop, 0)..]
  }

  /** Where `s.strip()` starts in `s`: after its leading whitespace. */
  function StripStart(s: string): nat {
    SkipFrom(s, IsSpace, 0)
  }

  /** Where `s.strip()` ends in `s`: before its trailing whitespace. */
  function StripEnd(s: string): (e: nat)
    ensures StripStart(s) <= e <= |s|
  {
    SkipBack(s, IsSpace, StripStart(s), |s|)
  }

  /** Python's `s.strip()`: drops leading and trailing whitespace. */
  function Strip(s: string): string {
    s[StripStart(s)..StripEnd(s)]
  }

  /** What `s.strip()` leaves neither starts nor ends with whitespace. */
  lemma StripIsTrimmed(s: string)
    ensures Trimmed(Strip(s))
  {
    SkipFromSpec(s, IsSpace, 0);
    SkipBackSpec(s, IsSpace, StripStart(s), |s|);
    var r := Strip(s);
    if r != [] {
      assert r[0] == s[StripStart(s)];
      assert r[|r| - 1] == s[StripEnd(s) - 1];
    }
  }

  /** `strip` keeps the slice of `s` at `StripStart(s)`, and everything it
      removes, in front of that slice or behind it, is whitespace. */
  lemma StripKeepsMiddle(s: string)
    ensures StripStart(s) + |Strip(s)| <= |s|
    ensures Strip(s) == s[StripStart(s)..StripStart(s) + |Strip(s)|]
    ensures forall k :: 0 <= k < StripStart(s) ==> IsSpace(s[k])
    ensures forall k :: StripStart(s) + |Strip(s)| <= k < |s| ==> IsSpace(s[k])
  {
    SkipFromSpec(s, IsSpace, 0);
    SkipBackSpec(s, IsSpace, StripStart(s), |s|);
  }

  /** Stripping never creates an occurrence of a substring. */
  lemma ContainsOfStrip(s: string, p: string)
    requires Contains(Strip(s), p)
    ensures Contains(s, p)
  {
    StripKeepsMiddle(s);
    ContainsSlice(s, StripStart(s), StripStart(s) + |Strip(s)|, p);
  }

  /** A string that is already trimmed is left alone by `strip`; in
      particular `strip` is idempotent. */
  lemma StripTrimmed(s: string)
    requires Trimmed(s)
    ensures Strip(s) == s
  {
    if s != [] {
      assert StripStart(s) == 0;
      assert StripEnd(s) == |s|;
      assert s[0..|s|] == s;
    }
  }

  /** Stripping twice is stripping once. */
  lemma StripIdempotent(s: string)
    ensures Strip(Strip(s)) == Strip(s)
  {
    StripIsTrimmed(s);
    StripTrimmed(Strip(s));
  }

  /** Skipping forward stops at the same place once text is appended, as
      long as it stopped before the end. */
  lemma {:induction false} SkipFromExtend(s: string, t: string, drop: char -> bool, i: nat)
    requires i <= |s| && SkipFrom(s, drop, i) < |s|
    ensures SkipFrom(s + t, drop, i) == SkipFrom(s, drop, i)
    decreases |s| - i
  {
    assert (s + t)[i] == s[i];
    if drop(s[i]) {
      SkipFromExtend(s, t, drop, i + 1);
    }
  }

  /** Skipping backward from inside `s` does not look at what follows `s`. */
  lemma {:induction false} SkipBackExtend(s: string, t: string, drop: char -> bool, lo: nat, j: nat)
    requires lo <= j <= |s|
    ensures SkipBack(s + t, drop, lo, j) == SkipBack(s, drop, lo, j)
    decreases j
  {
    if lo < j {
      assert (s + t)[j - 1] == s[j - 1];
      if drop(s[j - 1]) {
        SkipBackExtend(s, t, drop, lo, j - 1);
      }
    }
  }

  /** A trailing space makes no difference to `strip`. */
  lemma StripSpaceAppend(s: string)
    ensures Strip(s + " ") == Strip(s)
  {
    var t := s + " ";
    SkipFromSpec(s, IsSpace, 0);
    if StripStart(s) < |s| {
      var i := StripStart(s);
      SkipFromExtend(s, " ", IsSpace, 0);
      assert t[|s|] == ' ';
      assert SkipBack(t, IsSpace, i, |t|) == SkipBack(t, IsSpace, i, |s|);
      SkipBackExtend(s, " ", IsSpace, i, |s|);
      assert t[i..StripEnd(s)] == s[i..StripEnd(s)];
    } else {
      BlankAppend(s, " ");
      StripBlank(t);
    }
  }

  /** `strip` removes one trailing space from a non-empty trimmed string. */
  lemma StripTrailingSpace(s: string)
    requires s != [] && Trimmed(s)
    ensures Strip(s + " ") == s
  {
    var t := s + " ";
    assert t[0] == s[0];
    assert StripStart(t) == 0;
    assert t[|s| - 1] == s[|s| - 1];
    assert SkipBack(t, IsSpace, 0, |s|) == |s|;
    assert StripEnd(t) == |s|;
    assert t[0..|s|] == s;
  }

  /** The first occurrence of `p` in `s` at or after index `from`. */
  function FindFrom(s: string, p: string, from: nat): (r: Option<nat>)
    requires from <= |s|
    ensures r.Some? ==> from <= r.value && r.value + |p| <= |s|
    decreases |s| - from
  {
    if OccursAt(s, p, from) then Some(from)
    else if from == |s| then None
    else FindFrom(s, p, from + 1)
  }

  /** `FindFrom` returns the first occurrence at or after `from`, and nothing
      exactly when there is none. */
  lemma {:induction false} FindFromFirst(s: string, p: string, from: nat)
    requires from <= |s|
    ensures FindFrom(s, p, from).Some? ==> OccursAt(s, p, FindFrom(s, p, from).value)
    ensures FindFrom(s, p, from).Some? ==>
      forall j :: from <= j < FindFrom(s, p, from).value ==> !OccursAt(s, p, j)
    ensures FindFrom(s, p, from).None? <==> forall j :: from <= j ==> !OccursAt(s, p, j)
    decreases |s| - from
  {
    if !OccursAt(s, p, from) && from < |s| {
      FindFromFirst(s, p, from + 1);
    }
  }

  /** The first occurrence of `p` in `s`, like Python's `s.find(p)` with
      `None` for -1. */
  function Find(s: string, p: string): (r: Option<nat>)
    ensures r.Some? ==> r.value + |p| <= |s|
  {
    FindFrom(s, p, 0)
  }

  /** `Find` returns the first occurrence, and nothing exactly when there is none. */
  lemma FindFirst(s: string, p: string)
    ensures Find(s, p).Some? ==> OccursAt(s, p, Find(s, p).value)
    ensures Find(s, p).Some? ==> forall j :: 0 <= j < Find(s, p).value ==> !OccursAt(s, p, j)
    ensures Find(s, p).None? <==> !Contains(s, p)
  {
    FindFromFirst(s, p, 0);
  }

  /** Python's `s.split(sep)` for a non-empty separator: the pieces between
      successive non-overlapping occurrences of `sep`, scanning left to right. */
  function Split(s: string, sep: string): (parts: seq<string>)
    requires sep != []
    ensures |parts| >= 1
    decreases |s|
  {
    if Find(s, sep).None? then [s]
    else [s[..Find(s, sep).value]] + Split(s[Find(s, sep).value + |sep|..], sep)
  }

  /** Splitting at the first occurrence of the separator. */
  lemma SplitAt(s: string, sep: string, i: nat)
    requires sep != [] && Find(s, sep) == Some(i)
    ensures i + |sep| <= |s|
    ensures Split(s, sep) == [s[..i]] + Split(s[i + |sep|..], sep)
  {
    assert Split(s, sep) == (if Find(s, sep).None? then [s]
      else [s[..Find(s, sep).value]] + Split(s[Find(s, sep).value + |sep|..], sep));
  }

  /** The text before the first occurrence of `sep` holds no occurrence of it. */
  lemma PrefixBeforeFirst(s: string, i: nat, sep: string)
    requires sep != [] && i <= |s|
    requires forall j :: 0 <= j < i ==> !OccursAt(s, sep, j)
    ensures !Contains(s[..i], sep)
  {
    forall j | OccursAt(s[..i], sep, j)
      ensures false
    {
      assert s[..i][j..j + |sep|] == s[j..j + |sep|];
      assert OccursAt(s, sep, j);
    }
  }

  /** No piece of a split contains the separator. */
  lemma {:induction false} SplitPiecesFree(s: string, sep: string)
    requires sep != []
    ensures forall k :: 0 <= k < |Split(s, sep)| ==> !Contains(Split(s, sep)[k], sep)
    decreases |s|
  {
    FindFirst(s, sep);
    match Find(s, sep)
    case None =>
    case Some(i) =>
      SplitAt(s, sep, i);
      PrefixBeforeFirst(s, i, sep);
      SplitPiecesFree(s[i + |sep|..], sep);
  }

  /** The first piece of a split is the prefix of the string before the
      first occurrence of the separator, or the whole string without one. */
  lemma SplitFirst(s: string, sep: string)
    requires sep != []
    ensures |Split(s, sep)[0]| <= |s| && Split(s, sep)[0] == s[..|Split(s, sep)[0]|]
    ensures Find(s, sep).None? ==> Split(s, sep)[0] == s
    ensures Find(s, sep).Some? ==> Split(s, sep)[0] == s[..Find(s, sep).value]
  {
    match Find(s, sep)
    case None =>
    case Some(i) => SplitAt(s, sep, i);
  }

  /** The last character of `sep` occurs nowhere else in it. */
  ghost predicate LastCharUnique(sep: string) {
    sep != [] && forall k :: 0 <= k < |sep| - 1 ==> sep[k] != sep[|sep| - 1]
  }

  lemma CharOfOccurrence(s: string, sep: string, i: int, e: int)
    requires OccursAt(s, sep, i) && i <= e < i + |sep|
    ensures s[e] == sep[e - i]
  {
    assert s[i..i + |sep|][e - i] == s[e];
  }

  /** Occurrences of a separator whose last character is unique cannot overlap. */
  lemma NoOverlap(s: string, sep: string, i: int, q: int)
    requires LastCharUnique(sep)
    requires OccursAt(s, sep, i) && OccursAt(s, sep, q) && i < q
    ensures i + |sep| <= q
  {
    if q < i + |sep| {
      var e := i + |sep| - 1;
      CharOfOccurrence(s, sep, i, e);
      CharOfOccurrence(s, sep, q, e);
      assert false;
    }
  }

  /** Python's `s.split(sep)[-1]`. */
  function LastPiece(s: string, sep: string): string
    requires sep != []
  {
    var parts := Split(s, sep);
    parts[|parts| - 1]
  }

  /** The last piece of a split is the last piece of what follows the
      first separator. */
  lemma SplitLastAfterFirst(s: string, sep: string, i: nat)
    requires sep != [] && Find(s, sep) == Some(i)
    ensures i + |sep| <= |s|
    ensures LastPiece(s, sep) == LastPiece(s[i + |sep|..], sep)
  {
    SplitAt(s, sep, i);
  }

  /** In `p + sep + r`, the first separator either is the one after `p` or
      lies wholly inside `p`, when the separator cannot overlap itself. */
  lemma FirstSeparator(p: string, sep: string, r: string)
    requires sep != [] && LastCharUnique(sep)
    ensures Find(p + sep + r, sep).Some?
    ensures Find(p + sep + r, sep).value == |p| ||
            Find(p + sep + r, sep).value + |sep| <= |p|
  {
    var s := p + sep + r;
    assert s[|p|..|p| + |sep|] == sep;
    assert OccursAt(s, sep, |p|);
    FindFirst(s, sep);
    var i := Find(s, sep).value;
    if i < |p| {
      NoOverlap(s, sep, i, |p|);
    }
  }

  /** When the separator cannot overlap itself, the last piece of a split
      ignores everything up to and including any occurrence of the separator. */
  lemma {:induction false} SplitLastIgnoresPrefix(p: string, sep: string, r: string)
    requires sep != [] && LastCharUnique(sep)
    ensures LastPiece(p + sep + r, sep) == LastPiece(r, sep)
    decreases |p|
  {
    var s := p + sep + r;
    FirstSeparator(p, sep, r);
    var i := Find(s, sep).value;
    SplitLastAfterFirst(s, sep, i);
    var tail := s[i + |sep|..];
    if i == |p| {
      assert tail == r;
    } else {
      var rest := p[i + |sep|..];
      assert tail == rest + sep + r;
      SplitLastIgnoresPrefix(rest, sep, r);
    }
  }

  /** Python's `sep.join(parts)`. */
  function Join(parts: seq<string>, sep: string): string
    requires |parts| >= 1
  {
    if |parts| == 1 then parts[0] else parts[0] + sep + Join(parts[1..], sep)
  }

  lemma JoinCons(x: string, rest: seq<string>, sep: string)
    requires |rest| >= 1
    ensures Join([x] + rest, sep) == x + sep + Join(rest, sep)
  {
    assert ([x] + rest)[1..] == rest;
  }

  /** Splitting loses nothing: joining the pieces with the separator gives
      the original string back. */
  lemma {:induction false} JoinSplit(s: string, sep: string)
    requires sep != []
    ensures Join(Split(s, sep), sep) == s
    decreases |s|
  {
    match Find(s, sep)
    case None =>
    case Some(i) =>
      var tail := s[i + |sep|..];
      var rest := Split(tail, sep);
      SplitAt(s, sep, i);
      assert Join([s[..i]] + rest, sep) == s by {
        FindFirst(s, sep);
        JoinSplit(tail, sep);
        JoinCons(s[..i], rest, sep);
        assert s == s[..i] + s[i..i + |sep|] + tail;
      }
  }

  /** Joining one more piece appends the separator and that piece. */
  lemma {:induction false} JoinSnoc(parts: seq<string>, x: string, sep: string)
    requires |parts| >= 1
    ensures Join(parts + [x], sep) == Join(parts, sep) + sep + x
    decreases |parts|
  {
    if |parts| == 1 {
      assert (parts + [x])[1..] == [x];
    } else {
      JoinSnoc(parts[1..], x, sep);
      assert (parts + [x])[1..] == parts[1..] + [x];
    }
  }

  /** A space-join of non-empty stripped pieces is non-empty and stripped. */
  lemma {:induction false} JoinTrimmed(xs: seq<string>, sep: string)
    requires |xs| >= 1
    requires forall k :: 0 <= k < |xs| ==> xs[k] != [] && Trimmed(xs[k])
    ensures Join(xs, sep) != [] && Trimmed(Join(xs, sep))
    decreases |xs|
  {
    if |xs| > 1 {
      JoinTrimmed(xs[1..], sep);
      assert xs[1..][0] == xs[1];
      var j := Join(xs, sep);
      var r := Join(xs[1..], sep);
      assert j == xs[0] + sep + r;
      assert j[0] == xs[0][0];
      assert j[|j| - 1] == r[|r| - 1];
    }
  }

  /** Where the three parts of a concatenation sit in it. */
  lemma Pieces(a: string, b: string, c: string)
    ensures (a + b + c)[..|a|] == a
    ensures OccursAt(a + b + c, b, |a|)
    ensures (a + b + c)[|a| + |b|..] == c
  {
  }

  /** Text between a fixed prefix and a fixed suffix is determined by the whole. */
  lemma SameFrame(a: string, x: string, y: string, c: string)
    ensures a + x + c == a + y + c <==> x == y
  {
    if a + x + c == a + y + c {
      Pieces(a, x, c);
      Pieces(a, y, c);
      assert x == (a + x + c)[|a|..|a| + |x|];
    }
  }

  /** Every character is whitespace (the empty string included). */
  predicate Blank(s: string) {
    forall k :: 0 <= k < |s| ==> IsSpace(s[k])
  }

  lemma BlankAppend(a: string, b: string)
    ensures Blank(a + b) <==> Blank(a) && Blank(b)
  {
    var s := a + b;
    if Blank(s) {
      forall k | 0 <= k < |a| ensures IsSpace(a[k]) {
        assert a[k] == s[k];
      }
      forall k | 0 <= k < |b| ensures IsSpace(b[k]) {
        assert b[k] == s[|a| + k];
      }
    }
    if Blank(a) && Blank(b) {
      forall k | 0 <= k < |s| ensures IsSpace(s[k]) {
        if k < |a| {
          assert s[k] == a[k];
        } else {
          assert s[k] == b[k - |a|];
        }
      }
    }
  }

  /** `s.strip()` is empty exactly when `s` is all whitespace. */
  lemma StripBlank(s: string)
    ensures Strip(s) == [] <==> Blank(s)
  {
    StripKeepsMiddle(s);
    StripIsTrimmed(s);
    if Strip(s) != [] {
      assert Strip(s)[0] == s[StripStart(s)];
      assert !IsSpace(s[StripStart(s)]);
    }
  }

  /** The length of the leading run of non-whitespace characters. */
  function WordEnd(s: string): (n: nat)
    ensures n <= |s|
    decreases |s|
  {
    if s == [] || IsSpace(s[0]) then 0 else 1 + WordEnd(s[1..])
  }

  /** The leading run is free of whitespace, and whitespace (or the end)
      follows it. */
  lemma {:induction false} WordEndSpec(s: string)
    ensures forall k :: 0 <= k < WordEnd(s) ==> !IsSpace(s[k])
    ensures WordEnd(s) < |s| ==> IsSpace(s[WordEnd(s)])
    decreases |s|
  {
    if s != [] && !IsSpace(s[0]) {
      WordEndSpec(s[1..]);
    }
  }

  /** A non-empty run of non-whitespace characters. */
  predicate IsWord(w: string) {
    w != [] && forall k :: 0 <= k < |w| ==> !IsSpace(w[k])
  }

  /** Python's `s.split()` without arguments: the maximal runs of
      non-whitespace characters, in order. */
  function Words(s: string): seq<string>
    decreases |s|
  {
    if s == [] then []
    else if IsSpace(s[0]) then Words(s[1..])
    else
      var n := WordEnd(s);
      [s[..n]] + Words(s[n..])
  }

  /** Every piece of `split()` is a word, and there are none exactly when
      the string is all whitespace. */
  lemma {:induction false} WordsShape(s: string)
    ensures forall k :: 0 <= k < |Words(s)| ==> IsWord(Words(s)[k])
    ensures Words(s) == [] <==> Blank(s)
    decreases |s|
  {
    if s != [] {
      if IsSpace(s[0]) {
        WordsShape(s[1..]);
        assert forall k :: 0 < k < |s| ==> s[k] == s[1..][k - 1];
      } else {
        var n := WordEnd(s);
        WordEndSpec(s);
        WordsShape(s[n..]);
        assert IsWord(s[..n]);
      }
    }
  }

  /** `c.lower()` on ASCII letters. */
  function LowerChar(c: char): char {
    if 'A' <= c <= 'Z' then (c as int + 32) as char else c
  }

  /** The leading word of `s` ends where its first run of non-whitespace stops. */
  lemma WordEndAt(s: string, n: nat)
    requires n <= |s|
    requires forall k :: 0 <= k < n ==> !IsSpace(s[k])
    requires n < |s| ==> IsSpace(s[n])
    ensures WordEnd(s) == n
  {
    WordEndSpec(s);
  }

  /** A single word splits into itself. */
  lemma WordsOfWord(w: string)
    requires IsWord(w)
    ensures Words(w) == [w]
  {
    WordEndAt(w, |w|);
    assert w[..|w|] == w;
  }

  /** A whitespace character separates words: the words of `a + [c] + b`
      are the words of `a` followed by the words of `b`. With `WordsOfWord`
      and the blank case of `Words`, this determines `split()` completely. */
  lemma {:induction false} WordsAtSpace(a: string, c: char, b: string)
    requires IsSpace(c)
    ensures Words(a + [c] + b) == Words(a) + Words(b)
    decreases |a|
  {
    var s := a + [c] + b;
    if a == [] {
      assert s[1..] == b;
    } else if IsSpace(a[0]) {
      assert s[0] == a[0];
      assert s[1..] == a[1..] + [c] + b;
      WordsAtSpace(a[1..], c, b);
    } else {
      LeadingWordAtSpace(a, c, b);
      WordsAtSpace(a[WordEnd(a)..], c, b);
    }
  }

  /** A leading word of `a` is also the leading word of `a + [c] + b` when
      `c` is whitespace. */
  lemma LeadingWordAtSpace(a: string, c: char, b: string)
    requires IsSpace(c) && a != [] && !IsSpace(a[0])
    ensures 1 <= WordEnd(a)
    ensures (a + [c] + b)[0] == a[0]
    ensures WordEnd(a + [c] + b) == WordEnd(a)
    ensures (a + [c] + b)[..WordEnd(a)] == a[..WordEnd(a)]
    ensures (a + [c] + b)[WordEnd(a)..] == a[WordEnd(a)..] + [c] + b
  {
    var s := a + [c] + b;
    var m := WordEnd(a);
    WordEndSpec(a);
    forall k | 0 <= k < m
      ensures !IsSpace(s[k])
    {
      assert s[k] == a[k];
    }
    if m < |a| {
      assert s[m] == a[m];
    } else {
      assert s[m] == c;
    }
    WordEndAt(s, m);
    assert s[..m] == a[..m];
    assert s[m..] == a[m..] + [c] + b;
  }

  /** Python's `s.lower()`, restricted to ASCII letters. */
  function Lower(s: string): (r: string)
    ensures |r| == |s|
    ensures forall k :: 0 <= k < |s| ==> r[k] == LowerChar(s[k])
  {
    if s == [] then [] else [LowerChar(s[0])] + Lower(s[1..])
  }
}
