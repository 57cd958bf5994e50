/** Blog-title suggestion (`generate_titles` in blogai/titles/title_generator.py):
    a fixed few-shot prompt around the blog content, a call to a text
    generator, and a line-based clean-up of the generated text into at most
    `num_titles` titles. The text generator is a parameter of the model. */
module TitleGenerator {
  import opened Text
  import opened Seqs

  /** The adjacent string literals that make up the instructions and the two
      worked examples opening every prompt, in order. */
  const PreambleParts: seq<string> := [
    "You're an AI that writes short, catchy blog titles. Avoid generic 'How to' or question formats. ",
    "Do not include author names, punctuation, or full sentences. Just give 3 creative and specific titles.\n\n",
    "Example:\n",
    "Blog content: Exploring automation's role in software teams.\n",
    "Titles:\n",
    "- Automate Your Code Life\n",
    "- Dev Teams Reimagined\n",
    "- Robots Write Code Too\n\n",
    "Example:\n",
    "Blog content: How AI agents boost productivity and reshape workflows.\n",
    "Titles:\n",
    "- AI That Gets Stuff Done\n",
    "- Smarter Workdays with AI\n",
    "- Reinventing Teamwork with Bots\n\n"
  ]

  /** The concatenation of a list of string pieces. */
  function Concat(parts: seq<string>): string {
    if parts == [] then [] else parts[0] + Concat(parts[1..])
  }

  /** The instructions and the two worked examples that open every prompt. */
  const PromptPreamble: string := Concat(PreambleParts)

  const ContentLabel: string := "Blog content: "

  /** What follows the blog content: the cue for the first title bullet. */
  const PromptCue: string := "\nTitles:\n-"

  /** The sentinel whose last occurrence starts the part of the generated text
      that titles are taken from. */
  const Marker: string := "Suggested titles:"

  /** The characters `lstrip("-• ")` removes from the front of a bullet line. */
  predicate IsBulletChar(c: char) {
    c == '-' || c == '\U{2022}' || c == ' '
  }

  /** The prompt built around a given preamble: the preamble, then the
      labelled and stripped blog content, then the cue `"\nTitles:\n-"`. */
  function PromptWith(preamble: string, blogContent: string): string {
    preamble + (ContentLabel + Strip(blogContent)) + PromptCue
  }

  /** The prompt handed to the generator (lines 9-30 of blogai/titles/title_generator.py). */
  function Prompt(blogContent: string): (p: string)
    ensures StartsWith(p, PromptPreamble)
    ensures OccursAt(p, ContentLabel + Strip(blogContent), |PromptPreamble|)
    ensures EndsWith(p, PromptCue)
    ensures |p| == |PromptPreamble| + |ContentLabel| + |Strip(blogContent)| + |PromptCue|
  {
    Pieces(PromptPreamble, ContentLabel + Strip(blogContent), PromptCue);
    PromptWith(PromptPreamble, blogContent)
  }

  /** The blog content, as embedded in a prompt built around `preamble`. */
  function ContentWith(preamble: string, p: string): string
    requires |preamble| + |ContentLabel| + |PromptCue| <= |p|
  {
    p[|preamble| + |ContentLabel|..|p| - |PromptCue|]
  }

  /** The content can be read back from the prompt, whatever the preamble:
      the prompt keeps exactly the stripped blog content. */
  lemma PromptRoundTrip(preamble: string, blogContent: string)
    ensures |preamble| + |ContentLabel| + |PromptCue| <= |PromptWith(preamble, blogContent)|
    ensures ContentWith(preamble, PromptWith(preamble, blogContent)) == Strip(blogContent)
  {
    var x := Strip(blogContent);
    assert PromptWith(preamble, blogContent) == (preamble + ContentLabel) + x + PromptCue;
    Pieces(preamble + ContentLabel, x, PromptCue);
  }

  /** Two blog contents give the same prompt exactly when they agree after
      stripping surrounding whitespace, whatever the preamble. */
  lemma PromptInjective(preamble: string, a: string, b: string)
    ensures PromptWith(preamble, a) == PromptWith(preamble, b) <==> Strip(a) == Strip(b)
  {
    SameFrame(preamble, ContentLabel + Strip(a), ContentLabel + Strip(b), PromptCue);
    if ContentLabel + Strip(a) == ContentLabel + Strip(b) {
      assert Strip(a) == (ContentLabel + Strip(a))[|ContentLabel|..];
    }
  }

  /** The `max_length` passed to the generator: the prompt's word count plus 40. */
  function MaxLength(prompt: string): (n: nat)
    ensures n >= 40
  {
    |Words(prompt)| + 40
  }

  /** `output.split("Suggested titles:")[-1]`. */
  function AfterLastMarker(output: string): string {
    LastPiece(output, Marker)
  }

  /** The lines titles are taken from (line 45 of blogai/titles/title_generator.py). */
  function Lines(output: string): seq<string> {
    Split(Strip(AfterLastMarker(output)), "\n")
  }

  /** Without the marker, the whole generated text is used. */
  lemma MarkerAbsent(output: string)
    requires !Contains(output, Marker)
    ensures AfterLastMarker(output) == output
    ensures Lines(output) == Split(Strip(output), "\n")
  {
    FindFirst(output, Marker);
  }

  /** The marker's last character, the colon, occurs nowhere else in it. */
  lemma MarkerLastUnique()
    ensures LastCharUnique(Marker)
  {
    assert Marker[..|Marker| - 1] == "Suggested titles";
    assert ':' !in Marker[..|Marker| - 1];
    forall k | 0 <= k < |Marker| - 1 ensures Marker[k] != Marker[|Marker| - 1] {
      assert Marker[k] in Marker[..|Marker| - 1];
    }
  }

  /** Everything up to and including an occurrence of the marker has no effect
      on what the titles are taken from. */
  lemma EarlierTextIgnored(p: string, r: string)
    ensures AfterLastMarker(p + Marker + r) == AfterLastMarker(r)
    ensures Lines(p + Marker + r) == Lines(r)
  {
    MarkerLastUnique();
    SplitLastIgnoresPrefix(p, Marker, r);
  }

  /** The clean-up applied to a bullet line (lines 51-53 of
      blogai/titles/title_generator.py): drop leading `-`, `•` and spaces and
      strip, cut at the first `", by"`, cut at the first `"."` and strip
      again. */
  function CleanTitle(line: string): string {
    var stripped := Strip(LStrip(line, IsBulletChar));
    var beforeAuthor := Split(stripped, ", by")[0];
    var beforeDot := Split(beforeAuthor, ".")[0];
    Strip(beforeDot)
  }

  /** A cleaned line is stripped and contains neither `", by"` nor `"."`. */
  lemma CleanTitleValid(line: string)
    ensures Trimmed(CleanTitle(line))
    ensures !Contains(CleanTitle(line), ", by")
    ensures !Contains(CleanTitle(line), ".")
  {
    var stripped := Strip(LStrip(line, IsBulletChar));
    var beforeAuthor := Split(stripped, ", by")[0];
    var beforeDot := Split(beforeAuthor, ".")[0];
    var t := Strip(beforeDot);
    StripIsTrimmed(beforeDot);
    assert !Contains(t, ", by") by {
      SplitPiecesFree(stripped, ", by");
      SplitFirst(beforeAuthor, ".");
      if Contains(t, ", by") {
        ContainsOfStrip(beforeDot, ", by");
        ContainsSlice(beforeAuthor, 0, |beforeDot|, ", by");
      }
    }
    assert !Contains(t, ".") by {
      SplitPiecesFree(beforeAuthor, ".");
      if Contains(t, ".") {
        ContainsOfStrip(beforeDot, ".");
      }
    }
  }

  /** The filter of line 54: at least three whitespace-separated words and no
      `"http"` in any letter case. */
  predicate Acceptable(title: string) {
    |Words(title)| >= 3 && !Contains(Lower(title), "http")
  }

  /** What every returned title satisfies. */
  predicate IsTitle(t: string) {
    Acceptable(t) && Trimmed(t) && !Contains(t, ", by") && !Contains(t, ".")
  }

  /** The titles one line contributes: its cleaned form, when the line is a
      `-` bullet and the cleaned form passes the filter; nothing otherwise. */
  function LineTitles(line: string): seq<string> {
    if StartsWith(line, "-") && Acceptable(CleanTitle(line)) then [CleanTitle(line)] else []
  }

  /** All titles the lines yield, before the cut to `num_titles`. */
  function Candidates(lines: seq<string>): seq<string> {
    FlatMap(lines, LineTitles)
  }

  /** A line contributes at most one title, and what it contributes is a title. */
  lemma LineTitlesValid(line: string)
    ensures |LineTitles(line)| <= 1
    ensures forall k :: 0 <= k < |LineTitles(line)| ==> IsTitle(LineTitles(line)[k])
  {
    if StartsWith(line, "-") && Acceptable(CleanTitle(line)) {
      var t := CleanTitle(line);
      CleanTitleValid(line);
      assert IsTitle(t);
      assert LineTitles(line) == [t];
    }
  }

  /** At most one title per line, and every candidate satisfies `IsTitle`. */
  lemma CandidatesValid(lines: seq<string>)
    ensures |Candidates(lines)| <= |lines|
    ensures forall k :: 0 <= k < |Candidates(lines)| ==> IsTitle(Candidates(lines)[k])
  {
    forall k | 0 <= k < |lines|
      ensures |LineTitles(lines[k])| <= 1
      ensures forall j :: 0 <= j < |LineTitles(lines[k])| ==> IsTitle(LineTitles(lines[k])[j])
    {
      LineTitlesValid(lines[k]);
    }
    FlatMapEach(lines, LineTitles, IsTitle);
  }

  /** The titles of two groups of lines, one after the other, are the titles
      of the first group followed by those of the second: order is kept. */
  lemma CandidatesAppend(a: seq<string>, b: seq<string>)
    ensures Candidates(a + b) == Candidates(a) + Candidates(b)
  {
    FlatMapAppend(a, b, LineTitles);
  }

  /** The line is a `-` bullet whose cleaned form is `t` and passes the filter. */
  predicate Yields(line: string, t: string) {
    StartsWith(line, "-") && Acceptable(CleanTitle(line)) && CleanTitle(line) == t
  }

  /** A title is a candidate exactly when some `-` line cleans up to it and
      passes the filter. */
  lemma CandidatesOrigin(lines: seq<string>, t: string)
    ensures t in Candidates(lines) <==> exists k :: 0 <= k < |lines| && Yields(lines[k], t)
  {
    FlatMapMember(lines, LineTitles, t);
    forall k | 0 <= k < |lines| ensures t in LineTitles(lines[k]) <==> Yields(lines[k], t) {
    }
  }

  /** Lines that do not start with `-` contribute nothing. */
  lemma NoBulletsNoTitles(lines: seq<string>)
    requires forall k :: 0 <= k < |lines| ==> !StartsWith(lines[k], "-")
    ensures Candidates(lines) == []
  {
    FlatMapNone(lines, LineTitles);
  }

  /** Python's `s[:n]`; a negative `n` counts from the end. */
  function PyPrefix<T>(s: seq<T>, n: int): (r: seq<T>)
    ensures |r| <= |s| && r == s[..|r|]
    ensures 0 <= n ==> |r| == if n <= |s| then n else |s|
    ensures n < 0 ==> |r| == if -n <= |s| then |s| + n else 0
  {
    if 0 <= n then (if n <= |s| then s[..n] else s)
    else if -n <= |s| then s[..|s| + n]
    else []
  }

  /** The extraction and filtering of lines 44-57 applied to the generated text. */
  method ExtractTitles(output: string, numTitles: int) returns (titles: seq<string>)
    ensures titles == PyPrefix(Candidates(Lines(output)), numTitles)
    ensures 0 <= numTitles ==> |titles| <= numTitles
    ensures forall k :: 0 <= k < |titles| ==> IsTitle(titles[k])
  {
    var lines := Lines(output);
    var all: seq<string> := [];
    for i := 0 to |lines|
      invariant all == Candidates(lines[..i])
    {
      var line := lines[i];
      FlatMapSnoc(lines, i, LineTitles);
      if StartsWith(line, "-") {
        var title := CleanTitle(line);
        if |Words(title)| >= 3 && !Contains(Lower(title), "http") {
          all := all + [title];
        }
      }
    }
    assert lines[..|lines|] == lines;
    CandidatesValid(lines);
    titles := PyPrefix(all, numTitles);
  }

  /** The number of titles asked for when the caller gives none. */
  const DefaultNumTitles: int := 3

  /** What the generator returns for the prompt of `blogContent`, given the
      prompt and its `max_length` (lines 33-42 of blogai/titles/title_generator.py). */
  function GeneratedText(blogContent: string, generate: (string, nat) -> string): string {
    var prompt := Prompt(blogContent);
    generate(prompt, MaxLength(prompt))
  }

  /** `generate_titles`: build the prompt, let `generate` continue it, and
      extract the titles from what it returns. */
  method GenerateTitles(blogContent: string, numTitles: int, generate: (string, nat) -> string)
    returns (titles: seq<string>)
    ensures titles == PyPrefix(Candidates(Lines(GeneratedText(blogContent, generate))), numTitles)
  {
    var prompt := Prompt(blogContent);
    var output := generate(prompt, MaxLength(prompt));
    titles := ExtractTitles(output, numTitles);
  }

  /** `generate_titles(blog_content)` without `num_titles`: the default of
      three applies, so at most three titles come back. */
  method GenerateDefaultTitles(blogContent: string, generate: (string, nat) -> string)
    returns (titles: seq<string>)
    ensures titles == PyPrefix(Candidates(Lines(GeneratedText(blogContent, generate))), DefaultNumTitles)
    ensures |titles| <= 3
  {
    titles := GenerateTitles(blogContent, DefaultNumTitles, generate);
  }
}
