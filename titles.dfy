/** `generateTitle` of the transcription service: the local rule used when
    no API key is configured, the rule used when the titling call throws,
    and the clean-up applied to the model's title. */
module Titles {
  import opened Common
  import opened JsStrings

  const Untitled := "Untitled"

  /** `words || 'Untitled'`. */
  function OrUntitled(s: string): (r: string)
    ensures r != []
    ensures s != [] ==> r == s
    ensures s == [] ==> r == Untitled
  {
    if s == [] then Untitled else s
  }

  /** The first `n` space-separated words, joined again by spaces. */
  function FirstWords(s: string, n: nat): string {
    Join(Take(Split(s, ' '), n), ' ')
  }

  /** The placeholder is a single word without a full stop. */
  lemma UntitledIsOneWord()
    ensures '.' !in Untitled && Split(Untitled, ' ') == [Untitled]
  {
    SplitWithoutSeparator(Untitled, ' ');
  }

  /** A text that starts with a non-space has a non-empty first word. */
  lemma FirstWordsNonEmpty(s: string, n: nat)
    requires n >= 1 && s != [] && s[0] != ' '
    ensures FirstWords(s, n) != []
  {
    var parts := Split(s, ' ');
    assert parts[0] != [];
    var taken := Take(parts, n);
    assert taken[0] == parts[0];
    if |taken| > 1 {
      assert Join(taken, ' ') == taken[0] + ([' '] + Join(taken[1..], ' '));
    }
  }

  /** The first `n` words are exactly the first `n` pieces of the text and
      form a prefix of it. */
  lemma FirstWordsProperties(s: string, n: nat)
    requires n >= 1
    ensures Split(FirstWords(s, n), ' ') == Take(Split(s, ' '), n)
    ensures |Split(FirstWords(s, n), ' ')| <= n
    ensures FirstWords(s, n) <= s
  {
    var parts := Split(s, ' ');
    var taken := Take(parts, n);
    JoinSplit(s, ' ');
    assert taken == parts[..|taken|];
    JoinPrefix(parts, |taken|, ' ');
    SplitJoin(taken, ' ');
  }

  /** The transcript trimmed, with each white-space run made one space. */
  function Cleaned(transcript: string): (r: string)
    ensures Trimmed(r)
  {
    CollapseKeepsTrimmed(Trim(transcript));
    CollapseSpaces(Trim(transcript))
  }

  /** The cleaned transcript up to its first `.`, or all of it when it
      has none (lines 80-82). */
  function FirstSentence(transcript: string): (r: string)
    ensures r <= Cleaned(transcript) && '.' !in r
    ensures |r| < |Cleaned(transcript)| ==> Cleaned(transcript)[|r|] == '.'
    ensures r != [] ==> r[0] != ' '
  {
    var cleaned := Cleaned(transcript);
    var dot := IndexOf(cleaned, '.');
    var r := cleaned[..if dot.Some? then dot.value else |cleaned|];
    assert forall i :: 0 <= i < |r| ==> r[i] == cleaned[i];
    r
  }

  /** The title used when no API key is configured (lines 78-85): the
      first sentence of the cleaned text, cut to ten words. */
  function LocalTitle(transcript: string): string {
    OrUntitled(FirstWords(FirstSentence(transcript), 10))
  }

  /** The local title is the placeholder exactly when the first sentence
      is empty; otherwise it is that sentence's first ten words, a prefix
      of it. Either way it is non-empty, holds no `.` and has at most ten
      words. */
  lemma LocalTitleProperties(transcript: string)
    ensures var r := LocalTitle(transcript);
            var first := FirstSentence(transcript);
            && (first == [] ==> r == Untitled)
            && (first != [] ==> r <= first && Split(r, ' ') == Take(Split(first, ' '), 10))
            && r != []
            && '.' !in r
            && |Split(r, ' ')| <= 10
  {
    var first := FirstSentence(transcript);
    var words := FirstWords(first, 10);
    assert LocalTitle(transcript) == OrUntitled(words);
    if first == [] {
      assert words == [];
      UntitledIsOneWord();
    } else {
      FirstWordsNonEmpty(first, 10);
      FirstWordsProperties(first, 10);
      assert '.' !in words by {
        forall i | 0 <= i < |words| ensures words[i] != '.' {
          assert words[i] == first[i];
        }
      }
    }
  }

  /** The title used when the titling call throws (lines 96-97): the
      first eight words of the cleaned text. */
  function ErrorTitle(transcript: string): string {
    OrUntitled(FirstWords(Cleaned(transcript), 8))
  }

  /** The error title is the placeholder exactly when the cleaned
      transcript is empty; otherwise it is its first eight words, a prefix
      of it. Either way it is non-empty with at most eight words. */
  lemma ErrorTitleProperties(transcript: string)
    ensures var r := ErrorTitle(transcript);
            var cleaned := Cleaned(transcript);
            && (cleaned == [] ==> r == Untitled)
            && (cleaned != [] ==> r <= cleaned && Split(r, ' ') == Take(Split(cleaned, ' '), 8))
            && r != []
            && |Split(r, ' ')| <= 8
  {
    var cleaned := Cleaned(transcript);
    FirstWordsProperties(cleaned, 8);
    if cleaned == [] {
      UntitledIsOneWord();
    } else {
      FirstWordsNonEmpty(cleaned, 8);
    }
  }

  /** Where the title starts once a leading `"` is dropped. */
  function QuoteStart(t: string): (i: nat)
    ensures i <= 1 && i <= |t|
    ensures i == 1 <==> t != [] && t[0] == '"'
  {
    if t != [] && t[0] == '"' then 1 else 0
  }

  /** Where the title ends once a trailing `"` is dropped; a quote already
      taken as the leading one is not taken again. */
  function QuoteEnd(t: string): (e: nat)
    ensures QuoteStart(t) <= e <= |t|
    ensures e == |t| || e == |t| - 1
    ensures e == |t| - 1 <==> |t| > QuoteStart(t) && t[|t| - 1] == '"'
  {
    if |t| > QuoteStart(t) && t[|t| - 1] == '"' then |t| - 1 else |t|
  }

  /** One leading and one trailing double quote go; a lone `"` is
      removed once, as the start of the string. */
  function StripQuotes(t: string): (r: string)
    ensures t == [] ==> r == []
    ensures |t| >= 2 && t[0] == '"' && t[|t| - 1] == '"' ==> r == t[1..|t| - 1]
    ensures t != [] && t[0] == '"' && (|t| == 1 || t[|t| - 1] != '"') ==> r == t[1..]
    ensures t != [] && t[0] != '"' && t[|t| - 1] == '"' ==> r == t[..|t| - 1]
    ensures t != [] && t[0] != '"' && t[|t| - 1] != '"' ==> r == t
  {
    t[QuoteStart(t)..QuoteEnd(t)]
  }

  predicate IsTitlePunct(c: char) {
    c == '.' || c == ':' || c == '!' || c == '?'
  }

  /** The start of the run of `.:!?` that ends at `j`. */
  function PunctRunStart(s: string, j: nat): (k: nat)
    requires j <= |s|
    ensures k <= j
    ensures forall m :: k <= m < j ==> IsTitlePunct(s[m])
    ensures k == 0 || !IsTitlePunct(s[k - 1])
    decreases j
  {
    if j > 0 && IsTitlePunct(s[j - 1]) then PunctRunStart(s, j - 1) else j
  }

  /** Drops the trailing run of `.`, `:`, `!` and `?`. */
  function StripTrailingPunct(s: string): string {
    s[..PunctRunStart(s, |s|)]
  }

  /** The clean-up of the model's title (line 92), after `trim`. */
  function CleanTitle(reply: string): string {
    StripTrailingPunct(StripQuotes(Trim(reply)))
  }

  /** Everything of `t` from `j` on is closing punctuation, except that the
      very last character may be a `"`. */
  ghost predicate ClosingTail(t: string, j: nat) {
    forall m :: j <= m < |t| ==> IsTitlePunct(t[m]) || (m == |t| - 1 && t[m] == '"')
  }

  /** Dropping trailing punctuation keeps a prefix, drops only punctuation
      and leaves no punctuation at the end. */
  lemma StripTrailingPunctShape(u: string)
    ensures var k := PunctRunStart(u, |u|);
            && StripTrailingPunct(u) == u[..k]
            && (forall m :: k <= m < |u| ==> IsTitlePunct(u[m]))
            && (k == 0 || !IsTitlePunct(u[k - 1]))
  {
  }

  /** `r` is what the clean-up leaves of the trimmed reply `t`: one
      leading `"` goes, then one trailing `"` that is not that leading one,
      then the trailing run of `.`, `:`, `!` and `?`. */
  ghost predicate CleanedFrom(t: string, r: string) {
    var i := if t != [] && t[0] == '"' then 1 else 0;
    exists j :: i <= j <= |t| && r == t[i..j] && ClosingTail(t, j)
                && (|t| > i && t[|t| - 1] == '"' ==> j < |t|)
                && (r == [] || !IsTitlePunct(r[|r| - 1]))
  }

  /** Closing punctuation at the end of a slice that stops at most one `"`
      before the end leaves a closing tail in the whole string. */
  lemma ClosingTailOfSlice(t: string, i: nat, e: nat, k: nat)
    requires i <= e <= |t| && (e == |t| || (e == |t| - 1 && t[e] == '"'))
    requires i + k <= e
    requires forall m :: k <= m < e - i ==> IsTitlePunct(t[i..e][m])
    ensures ClosingTail(t, i + k)
  {
    forall m | i + k <= m < |t|
      ensures IsTitlePunct(t[m]) || (m == |t| - 1 && t[m] == '"')
    {
      if m < e { assert t[m] == t[i..e][m - i]; }
    }
  }

  /** The clean-up does what its two replaces say: the result is the
      trimmed reply without its surrounding quotes and its closing
      punctuation, and it never ends in `.`, `:`, `!` or `?`. */
  lemma CleanTitleShape(reply: string)
    ensures CleanedFrom(Trim(reply), CleanTitle(reply))
  {
    var t := Trim(reply);
    var i := QuoteStart(t);
    var e := QuoteEnd(t);
    var u := t[i..e];
    StripTrailingPunctShape(u);
    var k := PunctRunStart(u, |u|);
    ClosingTailOfSlice(t, i, e, k);
    var r := u[..k];
    assert r == t[i..i + k];
    assert CleanTitle(reply) == r;
  }

  /** A cut that leaves no closing punctuation at the end of what it
      keeps cannot lie past the start of a closing tail, unless it keeps a
      trailing `"` that the clean-up drops. */
  lemma CutBeforeClosingTail(t: string, i: nat, j1: nat, j2: nat)
    requires i <= j1 <= |t| && i <= j2 <= |t| && ClosingTail(t, j1)
    requires |t| > i && t[|t| - 1] == '"' ==> j2 < |t|
    requires t[i..j2] == [] || !IsTitlePunct(t[i..j2][|t[i..j2]| - 1])
    ensures j2 <= j1
  {
  }

  /** At most one string is the clean-up of a trimmed reply, so
      `CleanedFrom` pins `CleanTitle` down completely. */
  lemma CleanedFromUnique(t: string, r1: string, r2: string)
    requires CleanedFrom(t, r1) && CleanedFrom(t, r2)
    ensures r1 == r2
  {
    var i := if t != [] && t[0] == '"' then 1 else 0;
    var j1 :| i <= j1 <= |t| && r1 == t[i..j1] && ClosingTail(t, j1)
              && (|t| > i && t[|t| - 1] == '"' ==> j1 < |t|)
              && (r1 == [] || !IsTitlePunct(r1[|r1| - 1]));
    var j2 :| i <= j2 <= |t| && r2 == t[i..j2] && ClosingTail(t, j2)
              && (|t| > i && t[|t| - 1] == '"' ==> j2 < |t|)
              && (r2 == [] || !IsTitlePunct(r2[|r2| - 1]));
    CutBeforeClosingTail(t, i, j1, j2);
    CutBeforeClosingTail(t, i, j2, j1);
  }

  /** A title that has no surrounding quote and no closing punctuation is
      kept as the model wrote it (after `trim`). */
  lemma CleanTitleKeepsCleanTitle(reply: string)
    requires var t := Trim(reply);
             t != [] && t[0] != '"' && t[|t| - 1] != '"' && !IsTitlePunct(t[|t| - 1])
    ensures CleanTitle(reply) == Trim(reply)
  {
    var t := Trim(reply);
    assert StripQuotes(t) == t;
    assert PunctRunStart(t, |t|) == |t|;
  }

  /** The clean-up can leave nothing: a reply that is a quoted closing
      mark, such as `"?"`, becomes the empty title. */
  lemma CleanTitleCanBeEmpty(c: char)
    requires IsTitlePunct(c)
    ensures CleanTitle(['"', c, '"']) == []
  {
    var t := ['"', c, '"'];
    TrimOfTrimmed(t);
    assert StripQuotes(t) == [c];
    assert PunctRunStart([c], 1) == 0;
  }

  /** `generateTitle`: `configured` is whether an API key was found, `reply`
      the model's text or `None` when the call threw. */
  function GenerateTitle(configured: bool, transcript: string, reply: Option<string>): string {
    if !configured then LocalTitle(transcript)
    else if reply.None? then ErrorTitle(transcript)
    else CleanTitle(reply.value)
  }

  /** Both fallbacks give a non-empty title; the model's title never ends
      in closing punctuation. */
  lemma GenerateTitleProperties(configured: bool, transcript: string, reply: Option<string>)
    ensures var r := GenerateTitle(configured, transcript, reply);
            && (!configured || reply.None? ==> r != [])
            && (configured && reply.Some? ==> CleanedFrom(Trim(reply.value), r))
  {
    if !configured {
      LocalTitleProperties(transcript);
    } else if reply.None? {
      ErrorTitleProperties(transcript);
    } else {
      CleanTitleShape(reply.value);
    }
  }
}
