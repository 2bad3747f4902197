/** `generateVisitDiff` of the transcription service: the deterministic
    sentence-difference fallback, the per-field shape guard applied to the
    parsed model reply, and the choice between the two. */
module VisitDiff {
  import opened Common
  import opened JsStrings
  import JsonExtract

  // ---------------------------------------------------------------------
  // Sentences: split after `.`, `!` or `?` followed by white space, trim each
  // piece and drop the empty ones
  // ---------------------------------------------------------------------

  predicate IsTerminator(c: char) {
    c == '.' || c == '!' || c == '?'
  }

  /** `(?<=[.!?])\s+` can start matching at `i`: a white-space character
      right after a sentence terminator. */
  predicate BoundaryAt(s: string, i: int) {
    0 < i < |s| && IsTerminator(s[i - 1]) && IsSpace(s[i])
  }

  /** The splitting loop of `String.prototype.split` with that separator:
      the current piece starts at `start`, the search is at `i`, and a match
      swallows the whole white-space run (the `\s+` is greedy). */
  function SplitFrom(s: string, start: nat, i: nat): (pieces: seq<string>)
    requires start <= i <= |s|
    ensures |pieces| >= 1
    decreases |s| - i
  {
    if i == |s| then [s[start..]]
    else if BoundaryAt(s, i) then
      var k := SkipSpaces(s, i);
      [s[start..i]] + SplitFrom(s, k, k)
    else
      SplitFrom(s, start, i + 1)
  }

  /** The white-space runs the splitting loop removes, one between each
      two pieces. */
  function SplitRuns(s: string, start: nat, i: nat): seq<string>
    requires start <= i <= |s|
    decreases |s| - i
  {
    if i == |s| then []
    else if BoundaryAt(s, i) then
      var k := SkipSpaces(s, i);
      [s[i..k]] + SplitRuns(s, k, k)
    else
      SplitRuns(s, start, i + 1)
  }

  /** The pieces with the removed runs put back between them. */
  function Interleave(pieces: seq<string>, runs: seq<string>): string
    requires |pieces| == |runs| + 1
    decreases |runs|
  {
    if runs == [] then pieces[0] else pieces[0] + runs[0] + Interleave(pieces[1..], runs[1..])
  }

  /** The `n`-th cut: a non-empty white-space run right after a piece
      ending in `.`, `!` or `?`, and not followed by more white space. */
  ghost predicate CutAt(pieces: seq<string>, runs: seq<string>, n: nat)
    requires |pieces| == |runs| + 1 && n < |runs|
  {
    && runs[n] != [] && AllSpace(runs[n])
    && pieces[n] != [] && IsTerminator(pieces[n][|pieces[n]| - 1])
    && (pieces[n + 1] == [] || !IsSpace(pieces[n + 1][0]))
  }

  ghost predicate WellCut(pieces: seq<string>, runs: seq<string>)
    requires |pieces| == |runs| + 1
  {
    forall n :: 0 <= n < |runs| ==> CutAt(pieces, runs, n)
  }

  /** A first cut in front of well-cut pieces leaves them well cut. */
  lemma WellCutCons(p: string, r: string, ps: seq<string>, rs: seq<string>)
    requires |ps| == |rs| + 1 && WellCut(ps, rs)
    requires r != [] && AllSpace(r) && p != [] && IsTerminator(p[|p| - 1])
    requires ps[0] == [] || !IsSpace(ps[0][0])
    ensures WellCut([p] + ps, [r] + rs)
  {
    var pieces := [p] + ps;
    var runs := [r] + rs;
    forall n | 0 <= n < |runs| ensures CutAt(pieces, runs, n) {
      if n > 0 {
        assert CutAt(ps, rs, n - 1);
        assert runs[n] == rs[n - 1] && pieces[n] == ps[n - 1] && pieces[n + 1] == ps[n];
      }
    }
  }

  /** The split loses nothing: putting the removed runs back between the
      pieces rebuilds the text. */
  lemma {:induction false} SplitFromRoundTrip(s: string, start: nat, i: nat)
    requires start <= i <= |s|
    ensures |SplitFrom(s, start, i)| == |SplitRuns(s, start, i)| + 1
    ensures SplitFrom(s, start, i)[0] <= s[start..]
    ensures Interleave(SplitFrom(s, start, i), SplitRuns(s, start, i)) == s[start..]
    decreases |s| - i
  {
    if i == |s| {
    } else if BoundaryAt(s, i) {
      var k := SkipSpaces(s, i);
      SplitFromRoundTrip(s, k, k);
      var ps := SplitFrom(s, k, k);
      var rs := SplitRuns(s, k, k);
      var pieces := [s[start..i]] + ps;
      var runs := [s[i..k]] + rs;
      assert pieces[1..] == ps && runs[1..] == rs;
      assert Interleave(pieces, runs) == s[start..i] + s[i..k] + s[k..];
      assert s[start..] == s[start..i] + s[i..k] + s[k..];
    } else {
      SplitFromRoundTrip(s, start, i + 1);
    }
  }

  /** Every cut is a whole white-space run (the next piece does not start
      with white space) right after a piece ending in `.`, `!` or `?`. */
  lemma {:induction false} SplitFromCuts(s: string, start: nat, i: nat)
    requires start <= i <= |s|
    requires start < i || !BoundaryAt(s, start)
    ensures |SplitFrom(s, start, i)| == |SplitRuns(s, start, i)| + 1
    ensures WellCut(SplitFrom(s, start, i), SplitRuns(s, start, i))
    decreases |s| - i
  {
    SplitFromRoundTrip(s, start, i);
    if i == |s| {
    } else if BoundaryAt(s, i) {
      var k := SkipSpaces(s, i);
      SplitFromCuts(s, k, k);
      SplitFromRoundTrip(s, k, k);
      var ps := SplitFrom(s, k, k);
      assert ps[0] == [] || ps[0][0] == s[k];
      WellCutCons(s[start..i], s[i..k], ps, SplitRuns(s, k, k));
    } else {
      SplitFromCuts(s, start, i + 1);
    }
  }

  /** A boundary inside a slice is a boundary of the whole string. */
  lemma BoundaryInSlice(s: string, a: nat, b: nat, j: int)
    requires a <= b <= |s| && BoundaryAt(s[a..b], j)
    ensures BoundaryAt(s, a + j)
  {
    assert s[a..b][j - 1] == s[a + j - 1] && s[a..b][j] == s[a + j];
  }

  /** No piece straddles a boundary: the loop cuts at every one. */
  lemma {:induction false} SplitFromNoBoundary(s: string, start: nat, i: nat)
    requires start <= i <= |s|
    requires forall j :: start < j < i ==> !BoundaryAt(s, j)
    ensures forall p, j :: p in SplitFrom(s, start, i) ==> !BoundaryAt(p, j)
    decreases |s| - i
  {
    var pieces := SplitFrom(s, start, i);
    if i == |s| {
      forall j | BoundaryAt(s[start..], j) ensures false {
        BoundaryInSlice(s, start, |s|, j);
      }
    } else if BoundaryAt(s, i) {
      var k := SkipSpaces(s, i);
      SplitFromNoBoundary(s, k, k);
      forall j | BoundaryAt(s[start..i], j) ensures false {
        BoundaryInSlice(s, start, i, j);
      }
    } else {
      SplitFromNoBoundary(s, start, i + 1);
    }
  }

  /** The trimmed, non-empty pieces, in order. */
  function TrimmedPieces(pieces: seq<string>): (r: seq<string>)
    ensures |r| <= |pieces|
    decreases |pieces|
  {
    if pieces == [] then []
    else
      var t := Trim(pieces[0]);
      (if t == [] then [] else [t]) + TrimmedPieces(pieces[1..])
  }

  /** The kept sentences are exactly the non-empty trims of the pieces,
      and each is trimmed. */
  lemma {:induction false} TrimmedPiecesMembers(pieces: seq<string>)
    ensures forall x :: x in TrimmedPieces(pieces) ==> Trimmed(x)
    ensures forall x :: x in TrimmedPieces(pieces) <==> x != [] && exists p :: p in pieces && x == Trim(p)
    decreases |pieces|
  {
    if pieces != [] {
      TrimmedPiecesMembers(pieces[1..]);
      forall x | x in TrimmedPieces(pieces[1..]) ensures exists p :: p in pieces && x == Trim(p) {
        var p :| p in pieces[1..] && x == Trim(p);
        assert p in pieces;
      }
      forall x | x != [] && (exists p :: p in pieces && x == Trim(p)) ensures x in TrimmedPieces(pieces) {
        var p :| p in pieces && x == Trim(p);
        if p != pieces[0] {
          assert p in pieces[1..];
        }
      }
    }
  }

  /** One step of the filter: the first piece's trim, when non-empty,
      comes first. */
  lemma TrimmedPiecesUnfold(ps: seq<string>)
    requires ps != []
    ensures TrimmedPieces(ps) == (if Trim(ps[0]) == [] then [] else [Trim(ps[0])]) + TrimmedPieces(ps[1..])
  {
  }

  /** The head and the tail of a concatenation with a non-empty front. */
  lemma ConcatHeadTail(a: seq<string>, b: seq<string>)
    requires a != []
    ensures (a + b)[0] == a[0] && (a + b)[1..] == a[1..] + b
  {
  }

  /** The step of `TrimmedPiecesAppend`: distributing over the tail of `a`
      distributes over `a`. */
  lemma TrimmedPiecesAppendStep(a: seq<string>, b: seq<string>)
    requires a != []
    requires TrimmedPieces(a[1..] + b) == TrimmedPieces(a[1..]) + TrimmedPieces(b)
    ensures TrimmedPieces(a + b) == TrimmedPieces(a) + TrimmedPieces(b)
  {
    var head := if Trim(a[0]) == [] then [] else [Trim(a[0])];
    ConcatHeadTail(a, b);
    TrimmedPiecesUnfold(a);
    TrimmedPiecesUnfold(a + b);
    AppendAssoc(head, TrimmedPieces(a[1..]), TrimmedPieces(b));
  }

  /** The filter keeps the order of the pieces: it distributes over
      concatenation. */
  lemma {:induction false} TrimmedPiecesAppend(a: seq<string>, b: seq<string>)
    ensures TrimmedPieces(a + b) == TrimmedPieces(a) + TrimmedPieces(b)
    decreases |a|
  {
    if a == [] {
      assert a + b == b;
    } else {
      TrimmedPiecesAppend(a[1..], b);
      TrimmedPiecesAppendStep(a, b);
    }
  }

  /** The sentences of a note or transcript. */
  function Sentences(text: string): seq<string> {
    TrimmedPieces(SplitFrom(text, 0, 0))
  }

  /** The sentences are exactly the non-empty trims of the pieces the
      split leaves, every one of them trimmed and cut out of a piece with
      no terminator-then-white-space inside. */
  lemma SentencesMembers(text: string)
    ensures forall x :: x in Sentences(text) ==> Trimmed(x)
    ensures forall x :: x in Sentences(text) <==> x != [] && exists p :: p in SplitFrom(text, 0, 0) && x == Trim(p)
    ensures forall p, j :: p in SplitFrom(text, 0, 0) ==> !BoundaryAt(p, j)
  {
    TrimmedPiecesMembers(SplitFrom(text, 0, 0));
    SplitFromNoBoundary(text, 0, 0);
  }

  // ---------------------------------------------------------------------
  // The ordered difference: the items of one list that the other lacks
  // ---------------------------------------------------------------------

  function Missing(xs: seq<string>, ys: seq<string>): (r: seq<string>)
    ensures |r| <= |xs|
    decreases |xs|
  {
    if xs == [] then []
    else (if xs[0] in ys then [] else [xs[0]]) + Missing(xs[1..], ys)
  }

  /** An item is in the difference exactly when it is in the first list
      and not in the second. */
  lemma {:induction false} MissingMembers(xs: seq<string>, ys: seq<string>)
    ensures forall x :: x in Missing(xs, ys) <==> x in xs && x !in ys
    decreases |xs|
  {
    if xs != [] {
      MissingMembers(xs[1..], ys);
      assert xs == [xs[0]] + xs[1..];
    }
  }

  /** The difference keeps the order of its first argument: it distributes
      over concatenation. */
  lemma {:induction false} MissingAppend(a: seq<string>, b: seq<string>, ys: seq<string>)
    ensures Missing(a + b, ys) == Missing(a, ys) + Missing(b, ys)
    decreases |a|
  {
    if a != [] {
      MissingAppend(a[1..], b, ys);
      assert (a + b)[0] == a[0];
      assert (a + b)[1..] == a[1..] + b;
      var head := if a[0] in ys then [] else [a[0]];
      assert Missing(a, ys) == head + Missing(a[1..], ys);
      assert Missing(a + b, ys) == head + (Missing(a[1..], ys) + Missing(b, ys));
    } else {
      assert a + b == b;
    }
  }

  /** Duplicates are kept: a sentence absent from `ys` occurs in the
      difference as often as in `xs`, and one present in `ys` never. */
  lemma {:induction false} MissingCount(xs: seq<string>, ys: seq<string>, x: string)
    ensures multiset(Missing(xs, ys))[x] == if x in ys then 0 else multiset(xs)[x]
    decreases |xs|
  {
    if xs != [] {
      MissingCount(xs[1..], ys, x);
      assert xs == [xs[0]] + xs[1..];
    }
  }

  // ---------------------------------------------------------------------
  // The diff result and the JSON it is read from
  // ---------------------------------------------------------------------

  /** A value produced by `JSON.parse` (numbers kept as integers: the
      core never inspects them). An object maps each key to its last
      occurrence. */
  datatype Json =
    | JNull
    | JBool(b: bool)
    | JNumber(n: int)
    | JString(s: string)
    | JArray(items: seq<Json>)
    | JObject(fields: map<string, Json>)

  /** `changes.{new, resolved, worsened, improved, unchanged}` (`new` is
      `added`, `unchanged` is `unaltered`: both are Dafny keywords). Each field
      holds whatever the guard let through; the fallback fills them with
      arrays of strings. */
  datatype Changes = Changes(added: Json, resolved: Json, worsened: Json, improved: Json, unaltered: Json)

  datatype DiffResult = DiffResult(
    deltaSummary: seq<Json>,
    changes: Changes,
    nudges: seq<Json>,
    safeDisclaimer: string)

  const Disclaimer := "These results are AI-generated and should be reviewed by a clinician."
  const FallbackCap: nat := 25

  /** No field of the result is null or undefined. */
  predicate Complete(r: DiffResult) {
    && !r.changes.added.JNull?
    && !r.changes.resolved.JNull?
    && !r.changes.worsened.JNull?
    && !r.changes.improved.JNull?
    && !r.changes.unaltered.JNull?
  }

  function Strings(xs: seq<string>): (r: seq<Json>)
    ensures |r| == |xs|
    ensures forall i :: 0 <= i < |xs| ==> r[i] == JString(xs[i])
  {
    seq(|xs|, i requires 0 <= i < |xs| => JString(xs[i]))
  }

  // ---------------------------------------------------------------------
  // The fallback diff (lines 104-116, repeated at 144-156)
  // ---------------------------------------------------------------------

  datatype SentenceDiff = SentenceDiff(added: seq<string>, resolved: seq<string>)

  function SentenceChanges(priorNote: string, currentTranscript: string): (d: SentenceDiff)
    ensures |d.added| <= FallbackCap && |d.resolved| <= FallbackCap
  {
    var prior := Sentences(priorNote);
    var current := Sentences(currentTranscript);
    SentenceDiff(Take(Missing(current, prior), FallbackCap), Take(Missing(prior, current), FallbackCap))
  }

  function AddedLine(n: nat): string {
    "Added " + NatToString(n) + " new statements"
  }

  function ResolvedLine(n: nat): string {
    "Resolved " + NatToString(n) + " statements"
  }

  function FallbackResult(priorNote: string, currentTranscript: string): DiffResult {
    var d := SentenceChanges(priorNote, currentTranscript);
    DiffResult(
      [JString(AddedLine(|d.added|)), JString(ResolvedLine(|d.resolved|))],
      Changes(JArray(Strings(d.added)), JArray(Strings(d.resolved)), JArray([]), JArray([]), JArray([])),
      [],
      Disclaimer)
  }

  /** `new` holds current sentences absent from the prior note and
      `resolved` prior sentences absent from the transcript, each at most
      25; below the cap each list is the whole ordered difference, with
      every repeated sentence as often as it occurs. */
  lemma FallbackMembership(priorNote: string, currentTranscript: string)
    ensures var d := SentenceChanges(priorNote, currentTranscript);
            var prior := Sentences(priorNote);
            var current := Sentences(currentTranscript);
            && d.added <= Missing(current, prior)
            && d.resolved <= Missing(prior, current)
            && (|Missing(current, prior)| > FallbackCap ==> |d.added| == FallbackCap)
            && (|Missing(prior, current)| > FallbackCap ==> |d.resolved| == FallbackCap)
            && (forall x :: x in d.added ==> x in current && x !in prior)
            && (forall x :: x in d.resolved ==> x in prior && x !in current)
            && (|Missing(current, prior)| <= FallbackCap ==>
                  forall x :: x in current && x !in prior ==> x in d.added)
            && (|Missing(prior, current)| <= FallbackCap ==>
                  forall x :: x in prior && x !in current ==> x in d.resolved)
            && (|Missing(current, prior)| <= FallbackCap ==> d.added == Missing(current, prior))
            && (|Missing(prior, current)| <= FallbackCap ==> d.resolved == Missing(prior, current))
            && (|Missing(current, prior)| <= FallbackCap ==> forall x ::
                  multiset(d.added)[x] == (if x in prior then 0 else multiset(current)[x]))
            && (|Missing(prior, current)| <= FallbackCap ==> forall x ::
                  multiset(d.resolved)[x] == (if x in current then 0 else multiset(prior)[x]))
  {
    var prior := Sentences(priorNote);
    var current := Sentences(currentTranscript);
    var d := SentenceChanges(priorNote, currentTranscript);
    MissingMembers(current, prior);
    MissingMembers(prior, current);
    forall x ensures multiset(Missing(current, prior))[x] == (if x in prior then 0 else multiset(current)[x])
                 && multiset(Missing(prior, current))[x] == (if x in current then 0 else multiset(prior)[x]) {
      MissingCount(current, prior, x);
      MissingCount(prior, current, x);
    }
    forall x | x in d.added ensures x in current && x !in prior {
      assert x in Missing(current, prior);
    }
    forall x | x in d.resolved ensures x in prior && x !in current {
      assert x in Missing(prior, current);
    }
  }

  /** The fallback makes no semantic judgement and reports exactly the two
      counts in its summary, with the fixed, non-empty disclaimer. */
  lemma FallbackShape(priorNote: string, currentTranscript: string)
    ensures var r := FallbackResult(priorNote, currentTranscript);
            var d := SentenceChanges(priorNote, currentTranscript);
            && r.changes.worsened == JArray([])
            && r.changes.improved == JArray([])
            && r.changes.unaltered == JArray([])
            && r.nudges == []
            && r.deltaSummary == [JString(AddedLine(|d.added|)), JString(ResolvedLine(|d.resolved|))]
            && r.changes.added == JArray(Strings(d.added))
            && r.changes.resolved == JArray(Strings(d.resolved))
            && r.safeDisclaimer != []
            && Complete(r)
  {
  }

  /** The first summary line reads back as the number of new statements. */
  lemma AddedLineReadsBack(n: nat)
    ensures var line := AddedLine(n);
            var k := |line| - |" new statements"|;
            && 6 < k
            && line[..6] == "Added " && line[k..] == " new statements"
            && (forall i :: 6 <= i < k ==> IsDigit(line[i]))
            && DigitsValue(line[6..k]) == n
  {
    var digits := NatToString(n);
    NatToStringRoundTrip(n);
    assert AddedLine(n)[6..6 + |digits|] == digits;
  }

  /** The second summary line reads back as the number of resolved statements. */
  lemma ResolvedLineReadsBack(n: nat)
    ensures var line := ResolvedLine(n);
            var k := |line| - |" statements"|;
            && 9 < k
            && line[..9] == "Resolved " && line[k..] == " statements"
            && (forall i :: 9 <= i < k ==> IsDigit(line[i]))
            && DigitsValue(line[9..k]) == n
  {
    var digits := NatToString(n);
    NatToStringRoundTrip(n);
    assert ResolvedLine(n)[9..9 + |digits|] == digits;
  }

  // ---------------------------------------------------------------------
  // The shape guard (lines 128-139)
  // ---------------------------------------------------------------------

  /** `v.key` on a non-null value; `None` is `undefined`. */
  function Field(v: Json, key: string): Option<Json> {
    if v.JObject? && key in v.fields then Some(v.fields[key]) else None
  }

  /** `v?.key`: short-circuits to `undefined` on null or undefined. */
  function OptionalField(v: Option<Json>, key: string): Option<Json> {
    if v.None? || v.value.JNull? then None else Field(v.value, key)
  }

  /** `v ?? []`. */
  function OrEmptyArray(v: Option<Json>): (r: Json)
    ensures !r.JNull?
    ensures v.Some? && !v.value.JNull? ==> r == v.value
    ensures v.None? || v.value.JNull? ==> r == JArray([])
  {
    if v.None? || v.value.JNull? then JArray([]) else v.value
  }

  /** `Array.isArray(v) ? v : []`. */
  function ArrayOrEmpty(v: Option<Json>): seq<Json> {
    if v.Some? && v.value.JArray? then v.value.items else []
  }

  /** `parsed?.changes?.[key] ?? []`. */
  function ChangeField(parsed: Json, key: string): Json {
    OrEmptyArray(OptionalField(OptionalField(Some(parsed), "changes"), key))
  }

  /** The guard; `None` when `parsed` is null, where `parsed.delta_summary`
      throws. */
  function ShapeGuard(parsed: Json): (r: Option<DiffResult>)
    ensures r.None? <==> parsed.JNull?
    ensures r.Some? ==> Complete(r.value)
  {
    if parsed.JNull? then None
    else
      var disclaimer := Field(parsed, "safe_disclaimer");
      Some(DiffResult(
        ArrayOrEmpty(Field(parsed, "delta_summary")),
        Changes(ChangeField(parsed, "new"), ChangeField(parsed, "resolved"),
                ChangeField(parsed, "worsened"), ChangeField(parsed, "improved"),
                ChangeField(parsed, "unchanged")),
        ArrayOrEmpty(Field(parsed, "nudges")),
        if disclaimer.Some? && disclaimer.value.JString? then disclaimer.value.s else Disclaimer))
  }

  /** The JSON object a complete result is written as. */
  function ChangesJson(c: Changes): Json {
    JObject(map["new" := c.added, "resolved" := c.resolved, "worsened" := c.worsened,
                "improved" := c.improved, "unchanged" := c.unaltered])
  }

  function ResultJson(r: DiffResult): Json {
    JObject(map["delta_summary" := JArray(r.deltaSummary), "changes" := ChangesJson(r.changes),
                "nudges" := JArray(r.nudges), "safe_disclaimer" := JString(r.safeDisclaimer)])
  }

  /** A value whose `changes` field is a written-out `Changes` gives back
      each of its lists. */
  lemma ChangeFieldsOf(v: Json, c: Changes)
    requires Field(v, "changes") == Some(ChangesJson(c))
    requires !c.added.JNull? && !c.resolved.JNull? && !c.worsened.JNull?
    requires !c.improved.JNull? && !c.unaltered.JNull?
    ensures ChangeField(v, "new") == c.added && ChangeField(v, "resolved") == c.resolved
    ensures ChangeField(v, "worsened") == c.worsened && ChangeField(v, "improved") == c.improved
    ensures ChangeField(v, "unchanged") == c.unaltered
  {
  }

  /** A reply that already has the right shape passes the guard unchanged. */
  lemma ShapeGuardKeepsValid(r: DiffResult)
    requires Complete(r)
    ensures ShapeGuard(ResultJson(r)) == Some(r)
  {
    var v := ResultJson(r);
    assert Field(v, "changes") == Some(ChangesJson(r.changes));
    ChangeFieldsOf(v, r.changes);
    assert Field(v, "nudges") == Some(JArray(r.nudges));
    assert Field(v, "delta_summary") == Some(JArray(r.deltaSummary));
    assert Field(v, "safe_disclaimer") == Some(JString(r.safeDisclaimer));
  }

  /** Repair is field by field: a reply that lacks only `nudges` keeps every
      other field and gets an empty `nudges`. */
  lemma ShapeGuardMissingNudges(r: DiffResult)
    requires Complete(r)
    ensures ShapeGuard(JObject(ResultJson(r).fields - {"nudges"})) == Some(r.(nudges := []))
  {
    var v := JObject(ResultJson(r).fields - {"nudges"});
    assert Field(v, "nudges") == None;
    assert Field(v, "changes") == Some(ChangesJson(r.changes));
    ChangeFieldsOf(v, r.changes);
    assert Field(v, "delta_summary") == Some(JArray(r.deltaSummary));
    assert Field(v, "safe_disclaimer") == Some(JString(r.safeDisclaimer));
  }

  /** Each field is kept or defaulted on its own, whatever the other
      fields hold: an array summary or nudges and a string disclaimer are
      kept, anything else becomes an empty array or the fixed text; a
      change that is null or missing becomes an empty array, and any other
      change, array or not, is kept as it is. */
  lemma ShapeGuardDefaults(parsed: Json, key: string)
    requires !parsed.JNull?
    requires key in {"new", "resolved", "worsened", "improved", "unchanged"}
    ensures var r := ShapeGuard(parsed).value;
            && (Field(parsed, "nudges").None? || !Field(parsed, "nudges").value.JArray? ==> r.nudges == [])
            && (Field(parsed, "delta_summary").None? || !Field(parsed, "delta_summary").value.JArray? ==> r.deltaSummary == [])
            && (Field(parsed, "safe_disclaimer").None? || !Field(parsed, "safe_disclaimer").value.JString? ==> r.safeDisclaimer == Disclaimer)
            && (Field(parsed, "nudges").Some? && Field(parsed, "nudges").value.JArray? ==>
                  r.nudges == Field(parsed, "nudges").value.items)
            && (Field(parsed, "delta_summary").Some? && Field(parsed, "delta_summary").value.JArray? ==>
                  r.deltaSummary == Field(parsed, "delta_summary").value.items)
            && (Field(parsed, "safe_disclaimer").Some? && Field(parsed, "safe_disclaimer").value.JString? ==>
                  r.safeDisclaimer == Field(parsed, "safe_disclaimer").value.s)
            && var c := OptionalField(Field(parsed, "changes"), key);
               var got := match key
                          case "new" => r.changes.added
                          case "resolved" => r.changes.resolved
                          case "worsened" => r.changes.worsened
                          case "improved" => r.changes.improved
                          case _ => r.changes.unaltered;
               && (c.None? || c.value.JNull? ==> got == JArray([]))
               && (c.Some? && !c.value.JNull? ==> got == c.value)
  {
  }

  /** Any string disclaimer is kept, the empty one included: the guard
      does not make the disclaimer non-empty. */
  lemma ShapeGuardKeepsEmptyDisclaimer(fields: map<string, Json>)
    requires "safe_disclaimer" in fields && fields["safe_disclaimer"] == JString([])
    ensures ShapeGuard(JObject(fields)).value.safeDisclaimer == []
  {
  }

  // ---------------------------------------------------------------------
  // generateVisitDiff (lines 101-158)
  // ---------------------------------------------------------------------

  /** `configured`: the service has an API key. `reply`: the model's text, or
      `None` when the call threw. `parse`: `JSON.parse`, `None` when it throws. */
  function GenerateVisitDiff(configured: bool, priorNote: string, currentTranscript: string,
                             reply: Option<string>, parse: string -> Option<Json>): (r: DiffResult)
    ensures Complete(r)
  {
    var fallback := FallbackResult(priorNote, currentTranscript);
    FallbackShape(priorNote, currentTranscript);
    if !configured || reply.None? then fallback
    else
      var parsed := parse(JsonExtract.ExtractJson(Trim(reply.value)));
      if parsed.None? then fallback
      else
        var guarded := ShapeGuard(parsed.value);
        if guarded.None? then fallback else guarded.value
  }

  /** Every failure of the primary path (the call throws, the text does not
      parse, the parsed value is null) yields exactly the result of the
      unconfigured path on the same notes. */
  lemma FailureEqualsFallback(priorNote: string, currentTranscript: string,
                              reply: Option<string>, parse: string -> Option<Json>)
    requires || reply.None?
             || parse(JsonExtract.ExtractJson(Trim(reply.value))).None?
             || parse(JsonExtract.ExtractJson(Trim(reply.value))) == Some(JNull)
    ensures GenerateVisitDiff(true, priorNote, currentTranscript, reply, parse)
            == GenerateVisitDiff(false, priorNote, currentTranscript, reply, parse)
            == FallbackResult(priorNote, currentTranscript)
  {
  }

  /** The two ends of the choice: without an API key the fallback, and a
      reply that parses to a non-null value is repaired field by field by
      the shape guard, never replaced by the fallback. */
  lemma GenerateVisitDiffPaths(configured: bool, priorNote: string, currentTranscript: string,
                               reply: Option<string>, parse: string -> Option<Json>)
    ensures !configured ==>
              GenerateVisitDiff(configured, priorNote, currentTranscript, reply, parse)
              == FallbackResult(priorNote, currentTranscript)
    ensures configured && reply.Some? ==>
              var parsed := parse(JsonExtract.ExtractJson(Trim(reply.value)));
              parsed.Some? && !parsed.value.JNull? ==>
                GenerateVisitDiff(configured, priorNote, currentTranscript, reply, parse)
                == ShapeGuard(parsed.value).value
  {
  }

  /** A reply holding a well-shaped result is returned as the model wrote it. */
  lemma ValidReplyIsUsed(priorNote: string, currentTranscript: string, raw: string,
                         parse: string -> Option<Json>, r: DiffResult)
    requires Complete(r)
    requires parse(JsonExtract.ExtractJson(Trim(raw))) == Some(ResultJson(r))
    ensures GenerateVisitDiff(true, priorNote, currentTranscript, Some(raw), parse) == r
  {
    ShapeGuardKeepsValid(r);
  }

  /** `x. y.` splits into `x.` and `y.` for letters `x`, `y`. */
  lemma TwoSentences(x: char, y: char)
    requires 'A' <= x <= 'Z' && 'A' <= y <= 'Z'
    ensures Sentences([x, '.', ' ', y, '.']) == [[x, '.'], [y, '.']]
  {
    var s := [x, '.', ' ', y, '.'];
    assert BoundaryAt(s, 2) && !BoundaryAt(s, 1) && !BoundaryAt(s, 3) && !BoundaryAt(s, 4);
    assert SkipSpaces(s, 2) == 3;
    assert s[3..] == [y, '.'];
    assert SplitFrom(s, 3, 5) == [[y, '.']];
    assert SplitFrom(s, 3, 3) == SplitFrom(s, 3, 4) == [[y, '.']];
    assert s[0..2] == [x, '.'];
    assert SplitFrom(s, 0, 2) == [[x, '.']] + SplitFrom(s, 3, 3);
    assert SplitFrom(s, 0, 0) == SplitFrom(s, 0, 1) == [[x, '.'], [y, '.']];
    TrimOfTrimmed([x, '.']);
    TrimOfTrimmed([y, '.']);
    assert TrimmedPieces([[y, '.']]) == [[y, '.']];
  }

  /** The pattern of the worked example: "x. y." against "y. z." with
      three different letters lists "z." as new and "x." as resolved. */
  lemma ShiftedNotes(x: char, y: char, z: char)
    requires 'A' <= x <= 'Z' && 'A' <= y <= 'Z' && 'A' <= z <= 'Z'
    requires x != y && y != z && x != z
    ensures SentenceChanges([x, '.', ' ', y, '.'], [y, '.', ' ', z, '.'])
            == SentenceDiff([[z, '.']], [[x, '.']])
  {
    TwoSentences(x, y);
    TwoSentences(y, z);
    var prior := [[x, '.'], [y, '.']];
    var current := [[y, '.'], [z, '.']];
    assert [z, '.'] !in prior;
    assert [x, '.'] !in current;
    assert Missing(current[1..], prior) == [[z, '.']];
    assert Missing(current, prior) == [[z, '.']];
    assert Missing(prior[1..], current) == [];
    assert Missing(prior, current) == [[x, '.']];
  }

  /** The worked example, "A. B." against "B. C." (and every note pair of
      that shape): new = ["C."], resolved = ["A."], nothing else judged, and
      a summary counting one of each. */
  lemma FallbackExample(x: char, y: char, z: char)
    requires 'A' <= x <= 'Z' && 'A' <= y <= 'Z' && 'A' <= z <= 'Z'
    requires x != y && y != z && x != z
    ensures var r := FallbackResult([x, '.', ' ', y, '.'], [y, '.', ' ', z, '.']);
            && r.changes.added == JArray([JString([z, '.'])])
            && r.changes.resolved == JArray([JString([x, '.'])])
            && r.changes.worsened == r.changes.improved == r.changes.unaltered == JArray([])
            && r.deltaSummary == [JString(AddedLine(1)), JString(ResolvedLine(1))]
  {
    ShiftedNotes(x, y, z);
    var d := SentenceDiff([[z, '.']], [[x, '.']]);
    assert Strings(d.added) == [JString([z, '.'])];
    assert Strings(d.resolved) == [JString([x, '.'])];
  }
}
