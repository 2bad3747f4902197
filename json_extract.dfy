/** `extractJson` of the transcription service: pull the JSON text out of a
    free-form model reply, trying a fenced block, then the span between the
    first `{` and the last `}`, then the reply itself. */
module JsonExtract {
  import opened Common
  import opened JsStrings

  /** Three backticks start at `i`. */
  predicate FenceAt(s: string, i: int) {
    0 <= i && i + 3 <= |s| && s[i] == '`' && s[i + 1] == '`' && s[i + 2] == '`'
  }

  /** Case folding under the `i` flag without `u`: only ASCII letters fold
      onto ASCII letters. */
  function AsciiLower(c: char): char {
    if 'A' <= c <= 'Z' then (c as int + 32) as char else c
  }

  /** `json`, in any letter case, starts at `i`. */
  predicate JsonTagAt(s: string, i: int) {
    0 <= i && i + 4 <= |s|
    && AsciiLower(s[i]) == 'j' && AsciiLower(s[i + 1]) == 's'
    && AsciiLower(s[i + 2]) == 'o' && AsciiLower(s[i + 3]) == 'n'
  }

  /** The opening of the pattern: ```` ```json ```` when `tagged`, else ```` ``` ````. */
  function OpenerLength(tagged: bool): nat {
    if tagged then 7 else 3
  }

  predicate OpenerAt(s: string, p: int, tagged: bool) {
    FenceAt(s, p) && (tagged ==> JsonTagAt(s, p + 3))
  }

  /** The first fence at or after `from`: where the lazy `([\s\S]*?)` stops. */
  function NextFence(s: string, from: nat): (r: Option<nat>)
    requires from <= |s|
    ensures r.Some? ==> from <= r.value && FenceAt(s, r.value)
    ensures r.Some? ==> forall j :: from <= j < r.value ==> !FenceAt(s, j)
    ensures r.None? ==> forall j :: from <= j ==> !FenceAt(s, j)
    decreases |s| - from
  {
    if from + 3 > |s| then None
    else if FenceAt(s, from) then Some(from)
    else NextFence(s, from + 1)
  }

  /** `g` is a capture of the pattern in `s`: it is immediately followed by
      a closing fence and holds no fence itself (the shortest match). */
  ghost predicate Captured(s: string, g: string) {
    && (exists k, e :: 0 <= k <= e <= |s| && s[k..e] == g && FenceAt(s, e))
    && (forall j :: !FenceAt(g, j))
  }

  /** A fence inside a slice is a fence of the whole string. */
  lemma FenceInSlice(s: string, a: nat, b: nat)
    requires a <= b <= |s|
    ensures forall j :: FenceAt(s[a..b], j) ==> FenceAt(s, a + j)
  {
    forall j | FenceAt(s[a..b], j) ensures FenceAt(s, a + j) {
      assert s[a..b][j] == s[a + j] && s[a..b][j + 1] == s[a + j + 1] && s[a..b][j + 2] == s[a + j + 2];
    }
  }

  /** Group 1 of the pattern when the match starts at `p` (the greedy `\s*`
      need not give back: what it skips holds no backtick). */
  function MatchAt(s: string, p: nat, tagged: bool): (r: Option<string>)
    ensures r.Some? ==> Captured(s, r.value)
    ensures r.Some? <==> OpenerAt(s, p, tagged)
                         && NextFence(s, SkipSpaces(s, p + OpenerLength(tagged))).Some?
    ensures r.Some? ==> var k := SkipSpaces(s, p + OpenerLength(tagged));
                        && k + |r.value| <= |s| && r.value == s[k..k + |r.value|]
                        && NextFence(s, k) == Some(k + |r.value|)
  {
    if !OpenerAt(s, p, tagged) then None
    else
      var k := SkipSpaces(s, p + OpenerLength(tagged));
      var q := NextFence(s, k);
      if q.None? then None
      else
        var g := s[k..q.value];
        FenceInSlice(s, k, q.value);
        Some(g)
  }

  /** The leftmost match at or after `p`: `String.prototype.match`
      without the `g` flag. */
  function SearchFence(s: string, tagged: bool, p: nat): (r: Option<string>)
    requires p <= |s| + 1
    ensures r.Some? ==> Captured(s, r.value)
    ensures r.None? ==> forall q :: p <= q <= |s| ==> MatchAt(s, q, tagged).None?
    decreases |s| + 1 - p
  {
    if p > |s| then None
    else
      var m := MatchAt(s, p, tagged);
      if m.Some? then m else SearchFence(s, tagged, p + 1)
  }

  /** The search finds the leftmost position where the pattern matches. */
  lemma {:induction false} SearchFenceLeftmost(s: string, tagged: bool, p: nat)
    requires p <= |s| + 1
    ensures SearchFence(s, tagged, p).Some? ==>
              exists q :: p <= q <= |s| && SearchFence(s, tagged, p) == MatchAt(s, q, tagged)
                          && forall q' :: p <= q' < q ==> MatchAt(s, q', tagged).None?
    decreases |s| + 1 - p
  {
    if p <= |s| && MatchAt(s, p, tagged).None? {
      SearchFenceLeftmost(s, tagged, p + 1);
    }
  }

  /** The captured group of the tagged fence pattern, or else of the
      untagged one: the untagged pattern is tried only when the tagged one
      does not match at all, so an empty tagged capture still wins. */
  function FenceCapture(s: string): Option<string> {
    var tagged := SearchFence(s, true, 0);
    if tagged.Some? then tagged else SearchFence(s, false, 0)
  }

  /** The tagged pattern wins wherever it matches, however early an
      untagged fence occurs; the untagged pattern is the choice only when
      the tagged one matches nowhere. */
  lemma FenceCapturePrecedence(s: string)
    ensures (exists q :: 0 <= q <= |s| && MatchAt(s, q, true).Some?) ==>
              FenceCapture(s) == SearchFence(s, true, 0) && FenceCapture(s).Some?
    ensures (forall q :: 0 <= q <= |s| ==> MatchAt(s, q, true).None?) ==>
              FenceCapture(s) == SearchFence(s, false, 0)
  {
    SearchFenceLeftmost(s, true, 0);
  }

  /** `text.lastIndexOf(c)`. */
  function LastIndexOf(s: string, c: char): (r: Option<nat>)
    ensures r.Some? ==> r.value < |s| && s[r.value] == c
    ensures r.Some? ==> forall m :: r.value < m < |s| ==> s[m] != c
    ensures r.None? ==> forall m :: 0 <= m < |s| ==> s[m] != c
    decreases |s|
  {
    if s == [] then None
    else if s[|s| - 1] == c then Some(|s| - 1)
    else LastIndexOf(s[..|s| - 1], c)
  }

  ghost predicate IsInfix(r: string, s: string) {
    exists i, j :: 0 <= i <= j <= |s| && s[i..j] == r
  }

  function ExtractJson(text: string): (r: string)
    ensures IsInfix(r, text)
  {
    var fence := FenceCapture(text);
    if fence.Some? && fence.value != [] then
      fence.value
    else
      var first := IndexOf(text, '{');
      var last := LastIndexOf(text, '}');
      if first.Some? && last.Some? && last.value > first.value then
        text[first.value..last.value + 1]
      else
        assert text[0..|text|] == text;
        text
  }

  /** A non-empty fenced block wins; what comes back holds no fence. */
  lemma ExtractJsonFenced(text: string)
    requires FenceCapture(text).Some? && FenceCapture(text).value != []
    ensures var r := ExtractJson(text);
            r == FenceCapture(text).value && r != [] && Captured(text, r)
  {
  }

  /** With no usable fence and some `{` before some `}`, the result is the
      slice between the first `{` and the last `}`. */
  lemma ExtractJsonBraceSlice(text: string, i: nat, j: nat)
    requires FenceCapture(text).None? || FenceCapture(text).value == []
    requires i < j < |text| && text[i] == '{' && text[j] == '}'
    ensures IndexOf(text, '{').Some? && IndexOf(text, '{').value <= i
    ensures LastIndexOf(text, '}').Some? && j <= LastIndexOf(text, '}').value
    ensures ExtractJson(text) == text[IndexOf(text, '{').value..LastIndexOf(text, '}').value + 1]
  {
  }

  /** With no usable fence and some `{` before some `}`, the result is the
      span from the first `{` to the last `}`, both included. */
  lemma ExtractJsonBraces(text: string, i: nat, j: nat)
    requires FenceCapture(text).None? || FenceCapture(text).value == []
    requires i < j < |text| && text[i] == '{' && text[j] == '}'
    ensures var r := ExtractJson(text);
            && |r| >= 2 && r[0] == '{' && r[|r| - 1] == '}'
            && exists f, e :: 0 <= f <= e <= |text| && text[f..e] == r
                              && (forall m :: 0 <= m < f ==> text[m] != '{')
                              && (forall m :: e <= m < |text| ==> text[m] != '}')
  {
    ExtractJsonBraceSlice(text, i, j);
    var f := IndexOf(text, '{').value;
    var e := LastIndexOf(text, '}').value + 1;
    var r := text[f..e];
    assert r[0] == text[f] && r[|r| - 1] == text[e - 1];
  }

  /** With no usable fence and no `{` before a `}`, the reply is returned
      as it is. */
  lemma ExtractJsonRaw(text: string)
    requires FenceCapture(text).None? || FenceCapture(text).value == []
    requires forall i, j :: 0 <= i < j < |text| && text[i] == '{' ==> text[j] != '}'
    ensures ExtractJson(text) == text
  {
  }

  /** A reply wrapped in a tagged fence yields the object inside. */
  lemma ExtractJsonExample()
    ensures ExtractJson("```json {} ```") == "{} "
  {
    var s := "```json {} ```";
    assert OpenerAt(s, 0, true);
    assert SkipSpaces(s, 7) == 8;
    assert !FenceAt(s, 8) && !FenceAt(s, 9) && !FenceAt(s, 10) && FenceAt(s, 11);
    assert NextFence(s, 11) == Some(11);
    assert NextFence(s, 10) == Some(11);
    assert NextFence(s, 9) == Some(11);
    assert NextFence(s, 8) == Some(11);
    assert s[8..11] == "{} ";
    assert MatchAt(s, 0, true) == Some("{} ");
    assert SearchFence(s, true, 0) == Some("{} ");
  }
}
