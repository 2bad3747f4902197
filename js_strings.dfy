/** The JavaScript string built-ins the transcription service relies on:
    the `\s` character class (also the set `trim` removes), `trim`,
    `replace(/\s+/g, ' ')`, `split(' ')`, `join(' ')`, `slice(0, n)` on an
    array, and the decimal rendering of a count inside a template literal.
    Strings are sequences of Unicode scalar values. */
module JsStrings {
  import opened Common

  /** WhiteSpace and LineTerminator of ECMAScript: what `\s` matches and
      what `String.prototype.trim` strips. */
  predicate IsSpace(c: char) {
    || c == '\t' || c == '\n' || c == '\U{000B}' || c == '\U{000C}' || c == '\r'
    || c == ' ' || c == '\U{00A0}' || c == '\U{1680}'
    || ('\U{2000}' <= c <= '\U{200A}')
    || c == '\U{2028}' || c == '\U{2029}' || c == '\U{202F}' || c == '\U{205F}'
    || c == '\U{3000}' || c == '\U{FEFF}'
  }

  ghost predicate AllSpace(s: string) {
    forall i :: 0 <= i < |s| ==> IsSpace(s[i])
  }

  /** Neither end of `s` is white space: what `trim` guarantees. */
  predicate Trimmed(s: string) {
    s == [] || (!IsSpace(s[0]) && !IsSpace(s[|s| - 1]))
  }

  /** The end of the white-space run that starts at `i` (a greedy `\s*`). */
  function SkipSpaces(s: string, i: nat): (k: nat)
    requires i <= |s|
    ensures i <= k <= |s|
    ensures forall j :: i <= j < k ==> IsSpace(s[j])
    ensures k == |s| || !IsSpace(s[k])
    decreases |s| - i
  {
    if i < |s| && IsSpace(s[i]) then SkipSpaces(s, i + 1) else i
  }

  /** The start of the white-space run that ends at `j`. */
  function SpacesBefore(s: string, j: nat): (k: nat)
    requires j <= |s|
    ensures k <= j
    ensures forall m :: k <= m < j ==> IsSpace(s[m])
    ensures k == 0 || !IsSpace(s[k - 1])
    decreases j
  {
    if j > 0 && IsSpace(s[j - 1]) then SpacesBefore(s, j - 1) else j
  }

  /** `String.prototype.trim`. */
  function Trim(s: string): (r: string)
    ensures Trimmed(r)
    ensures |r| <= |s|
  {
    var i := SkipSpaces(s, 0);
    var j := SpacesBefore(s, |s|);
    if i < j then s[i..j] else []
  }

  /** What `trim` removes is white space, and what it keeps is one
      contiguous piece of the input. */
  lemma TrimIsInfix(s: string)
    ensures exists i, j :: 0 <= i <= j <= |s| && Trim(s) == s[i..j]
                           && AllSpace(s[..i]) && AllSpace(s[j..])
  {
    var i := SkipSpaces(s, 0);
    var j := SpacesBefore(s, |s|);
    if i < j {
      assert Trim(s) == s[i..j] && AllSpace(s[..i]) && AllSpace(s[j..]);
    } else {
      assert j <= i;
      assert forall m :: 0 <= m < |s| ==> IsSpace(s[m]);
      assert Trim(s) == s[0..0] && AllSpace(s[..0]) && AllSpace(s[0..]);
    }
  }

  /** A string with no white space at either end is left as it is. */
  lemma {:induction false} TrimOfTrimmed(s: string)
    requires Trimmed(s)
    ensures Trim(s) == s
  {
    if s != [] {
      assert SkipSpaces(s, 0) == 0;
      assert SpacesBefore(s, |s|) == |s|;
      assert s[0..|s|] == s;
    }
  }

  /** Every maximal white-space run becomes a single space. */
  function CollapseSpaces(s: string): (r: string)
    ensures |r| <= |s|
    ensures r == [] <==> s == []
    ensures r != [] ==> (IsSpace(r[0]) <==> IsSpace(s[0]))
    ensures r != [] ==> (IsSpace(r[|r| - 1]) <==> IsSpace(s[|s| - 1]))
    ensures forall i :: 0 <= i < |r| && IsSpace(r[i]) ==> r[i] == ' '
    ensures forall i :: 0 <= i < |r| - 1 ==> !(IsSpace(r[i]) && IsSpace(r[i + 1]))
    decreases |s|
  {
    if s == [] then []
    else if IsSpace(s[0]) then
      var k := SkipSpaces(s, 0);
      [' '] + CollapseSpaces(s[k..])
    else
      [s[0]] + CollapseSpaces(s[1..])
  }

  lemma AppendAssoc<T>(h: seq<T>, x: seq<T>, y: seq<T>)
    ensures h + (x + y) == (h + x) + y
  {
  }

  /** The white space counted from `i` stays inside `a` unless `a` ends
      in white space that `b` continues. */
  lemma {:induction false} SkipSpacesAppend(a: string, b: string, i: nat)
    requires i <= |a|
    requires SkipSpaces(a, i) < |a| || b == [] || !IsSpace(b[0])
    ensures SkipSpaces(a + b, i) == SkipSpaces(a, i)
    decreases |a| - i
  {
    if i < |a| {
      assert (a + b)[i] == a[i];
      if IsSpace(a[i]) {
        SkipSpacesAppend(a, b, i + 1);
      }
    } else if b != [] {
      assert (a + b)[i] == b[0];
    }
  }

  /** A white-space run collapses to one space. */
  lemma CollapseSpacesRun(w: string)
    requires w != [] && AllSpace(w)
    ensures CollapseSpaces(w) == " "
  {
    assert SkipSpaces(w, 0) == |w|;
    assert w[|w|..] == [];
  }

  /** A string without white space is left as it is. */
  lemma {:induction false} CollapseSpacesWord(w: string)
    requires forall i :: 0 <= i < |w| ==> !IsSpace(w[i])
    ensures CollapseSpaces(w) == w
    decreases |w|
  {
    if w != [] {
      CollapseSpacesWord(w[1..]);
      assert [w[0]] + w[1..] == w;
    }
  }

  /** Collapsing works run by run: it distributes over a concatenation that
      does not join two white-space runs. With the two lemmas above, this
      says that every maximal white-space run becomes one space in place and
      every other character is kept. */
  lemma {:induction false} CollapseSpacesAppend(a: string, b: string)
    requires a == [] || b == [] || !IsSpace(a[|a| - 1]) || !IsSpace(b[0])
    ensures CollapseSpaces(a + b) == CollapseSpaces(a) + CollapseSpaces(b)
    decreases |a|
  {
    if a == [] {
      assert a + b == b;
    } else if !IsSpace(a[0]) {
      assert (a + b)[0] == a[0] && (a + b)[1..] == a[1..] + b;
      CollapseSpacesAppend(a[1..], b);
      AppendAssoc([a[0]], CollapseSpaces(a[1..]), CollapseSpaces(b));
    } else {
      var k := SkipSpaces(a, 0);
      SkipSpacesAppend(a, b, 0);
      assert (a + b)[0] == a[0] && (a + b)[k..] == a[k..] + b;
      CollapseSpacesAppend(a[k..], b);
      AppendAssoc([' '], CollapseSpaces(a[k..]), CollapseSpaces(b));
    }
  }

  /** Collapsing a trimmed string leaves it trimmed. */
  lemma CollapseKeepsTrimmed(s: string)
    requires Trimmed(s)
    ensures Trimmed(CollapseSpaces(s))
  {
  }

  /** `s.indexOf(c)`; `None` stands for -1. */
  function IndexOf(s: string, c: char): (r: Option<nat>)
    ensures r.Some? ==> r.value < |s| && s[r.value] == c
    ensures r.Some? ==> forall m :: 0 <= m < r.value ==> s[m] != c
    ensures r.None? ==> forall m :: 0 <= m < |s| ==> s[m] != c
    decreases |s|
  {
    if s == [] then None
    else if s[0] == c then Some(0)
    else
      var r := IndexOf(s[1..], c);
      if r.None? then None else Some(r.value + 1)
  }

  /** `s.split(d)` for a one-character separator: never an empty array. */
  function Split(s: string, d: char): (parts: seq<string>)
    ensures |parts| >= 1
    ensures forall i :: 0 <= i < |parts| ==> d !in parts[i]
    decreases |s|
  {
    if s == [] then [[]]
    else
      var rest := Split(s[1..], d);
      if s[0] == d then [[]] + rest
      else [[s[0]] + rest[0]] + rest[1..]
  }

  /** `parts.join(d)`. */
  function Join(parts: seq<string>, d: char): string
    decreases |parts|
  {
    if |parts| == 0 then []
    else if |parts| == 1 then parts[0]
    else parts[0] + [d] + Join(parts[1..], d)
  }

  /** `xs.slice(0, n)`. */
  function Take<T>(xs: seq<T>, n: nat): (r: seq<T>)
    ensures |r| <= n && r <= xs
    ensures |xs| <= n ==> r == xs
    ensures |xs| > n ==> |r| == n
  {
    if |xs| <= n then xs else xs[..n]
  }

  /** Joining the pieces of a split gives back the string. */
  lemma {:induction false} JoinSplit(s: string, d: char)
    ensures Join(Split(s, d), d) == s
    decreases |s|
  {
    if s != [] {
      var rest := Split(s[1..], d);
      JoinSplit(s[1..], d);
      if s[0] == d {
        assert Split(s, d) == [[]] + rest;
        assert ([[]] + rest)[1..] == rest;
        assert Join(Split(s, d), d) == [d] + s[1..];
      } else if |rest| == 1 {
        assert Join(Split(s, d), d) == [s[0]] + rest[0];
      } else {
        var parts := [[s[0]] + rest[0]] + rest[1..];
        assert parts[1..] == rest[1..];
        assert Join(parts, d) == [s[0]] + rest[0] + [d] + Join(rest[1..], d);
        assert Join(rest, d) == rest[0] + [d] + Join(rest[1..], d);
      }
      assert s == [s[0]] + s[1..];
    }
  }

  /** Splitting a string that starts with a separator-free piece and a
      separator yields that piece first. */
  lemma {:induction false} SplitAfterPiece(a: string, d: char, b: string)
    requires d !in a
    ensures Split(a + [d] + b, d) == [a] + Split(b, d)
    decreases |a|
  {
    if a == [] {
      assert [] + [d] + b == [d] + b;
      assert ([d] + b)[1..] == b;
    } else {
      SplitAfterPiece(a[1..], d, b);
      assert (a + [d] + b)[1..] == a[1..] + [d] + b;
      assert [a[0]] + a[1..] == a;
    }
  }

  /** A separator-free string splits into itself. */
  lemma {:induction false} SplitWithoutSeparator(a: string, d: char)
    requires d !in a
    ensures Split(a, d) == [a]
    decreases |a|
  {
    if a != [] {
      SplitWithoutSeparator(a[1..], d);
      assert [a[0]] + a[1..] == a;
    }
  }

  /** Splitting a join of separator-free pieces gives back the pieces. */
  lemma {:induction false} SplitJoin(parts: seq<string>, d: char)
    requires |parts| >= 1
    requires forall i :: 0 <= i < |parts| ==> d !in parts[i]
    ensures Split(Join(parts, d), d) == parts
    decreases |parts|
  {
    if |parts| == 1 {
      SplitWithoutSeparator(parts[0], d);
    } else {
      SplitJoin(parts[1..], d);
      SplitAfterPiece(parts[0], d, Join(parts[1..], d));
      assert [parts[0]] + parts[1..] == parts;
    }
  }

  /** Joining the first pieces gives a prefix of the whole join. */
  lemma {:induction false} JoinPrefix(parts: seq<string>, n: nat, d: char)
    requires n <= |parts|
    ensures Join(parts[..n], d) <= Join(parts, d)
    decreases n
  {
    if n == 0 {
    } else if n == 1 {
      if |parts| > 1 { assert Join(parts, d) == parts[0] + ([d] + Join(parts[1..], d)); }
    } else {
      JoinPrefix(parts[1..], n - 1, d);
      assert parts[..n][1..] == parts[1..][..n - 1];
    }
  }

  /** The decimal digit for `n < 10`. */
  function DigitChar(n: nat): (c: char)
    requires n < 10
    ensures IsDigit(c)
  {
    (48 + n) as char
  }

  predicate IsDigit(c: char) {
    48 <= c as int <= 57
  }

  /** The value of a string of decimal digits. */
  function DigitsValue(s: string): nat
    requires forall i :: 0 <= i < |s| ==> IsDigit(s[i])
    decreases |s|
  {
    if s == [] then 0
    else
      assert IsDigit(s[|s| - 1]);
      DigitsValue(s[..|s| - 1]) * 10 + (s[|s| - 1] as int - 48)
  }

  /** A count as a template literal renders it: decimal, no sign, no
      leading zero. */
  function NatToString(n: nat): (r: string)
    ensures |r| >= 1
    ensures forall i :: 0 <= i < |r| ==> IsDigit(r[i])
    ensures r[0] == '0' ==> n == 0
    ensures n < 10 <==> |r| == 1
    ensures |r| > 1 ==> r[0] != '0'
    decreases n
  {
    if n < 10 then [DigitChar(n)] else NatToString(n / 10) + [DigitChar(n % 10)]
  }

  /** Reading back the rendered digits gives the count. */
  lemma {:induction false} NatToStringRoundTrip(n: nat)
    ensures DigitsValue(NatToString(n)) == n
    decreases n
  {
    if n >= 10 {
      NatToStringRoundTrip(n / 10);
      var r := NatToString(n);
      assert r[..|r| - 1] == NatToString(n / 10);
    }
  }
}
