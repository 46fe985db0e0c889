/**
  The JavaScript string operations the stage-gating code relies on, written out:
  `split(/\s+/)`, `trim()`, `length` (in UTF-16 code units), `toLowerCase()`,
  `toUpperCase()`, `includes`, `split('@')`, `replace('_', ' ')`, `join` and the
  decimal rendering of integers inside template literals.
*/
module Text {

  // ---------------------------------------------------------------------------
  // Whitespace and split(/\s+/)
  // ---------------------------------------------------------------------------

  /** The code points matched by the regular-expression class `\s` (ECMAScript
      WhiteSpace and LineTerminator); `trim()` removes exactly the same ones. */
  const WHITESPACE: set<char> := {
    '\t', '\n', '\U{000B}', '\U{000C}', '\r', ' ', '\U{00A0}', '\U{1680}',
    '\U{2000}', '\U{2001}', '\U{2002}', '\U{2003}', '\U{2004}', '\U{2005}',
    '\U{2006}', '\U{2007}', '\U{2008}', '\U{2009}', '\U{200A}',
    '\U{2028}', '\U{2029}', '\U{202F}', '\U{205F}', '\U{3000}', '\U{FEFF}'
  }

  predicate IsSpace(c: char) {
    c in WHITESPACE
  }

  /** `s.trim()` is empty. */
  predicate IsBlank(s: string) {
    forall k :: 0 <= k < |s| ==> IsSpace(s[k])
  }

  predicate NoSpace(s: string) {
    forall k :: 0 <= k < |s| ==> !IsSpace(s[k])
  }

  /** Offset of the first whitespace character of `s`, or `|s|` when there is none. */
  function FirstSpace(s: string): (i: nat)
    ensures i <= |s|
    ensures NoSpace(s[..i])
    ensures i < |s| ==> IsSpace(s[i])
  {
    if s == [] || IsSpace(s[0]) then 0
    else
      var i := 1 + FirstSpace(s[1..]);
      assert s[..i] == [s[0]] + s[1..][..i - 1];
      i
  }

  /** Length of the whitespace run at the start of `s`. */
  function SpaceRun(s: string): (n: nat)
    ensures n <= |s|
    ensures IsBlank(s[..n])
    ensures n < |s| ==> !IsSpace(s[n])
  {
    if s == [] || !IsSpace(s[0]) then 0
    else
      var n := 1 + SpaceRun(s[1..]);
      assert s[..n] == [s[0]] + s[1..][..n - 1];
      n
  }

  /** `s.split(/\s+/)`: the pieces between maximal whitespace runs. A leading or
      trailing run yields an empty piece, and "" splits into [""]. */
  function SplitOnSpaces(s: string): (pieces: seq<string>)
    ensures |pieces| >= 1
    decreases |s|
  {
    var i := FirstSpace(s);
    if i == |s| then [s]
    else
      var j := i + SpaceRun(s[i..]);
      [s[..i]] + SplitOnSpaces(s[j..])
  }

  /** The whitespace runs `split(/\s+/)` removes, in order. */
  function Separators(s: string): seq<string>
    decreases |s|
  {
    var i := FirstSpace(s);
    if i == |s| then []
    else
      var j := i + SpaceRun(s[i..]);
      [s[i..j]] + Separators(s[j..])
  }

  /** `pieces[0] + seps[0] + pieces[1] + ... + pieces[n]`. */
  function Interleave(pieces: seq<string>, seps: seq<string>): string
    requires |pieces| == |seps| + 1
  {
    if seps == [] then pieces[0]
    else pieces[0] + seps[0] + Interleave(pieces[1..], seps[1..])
  }

  /** What a correct split of a string looks like: whitespace-free pieces, nonempty
      whitespace separators, and no empty piece except possibly the first and last. */
  predicate WellSplit(pieces: seq<string>, seps: seq<string>) {
    && |pieces| == |seps| + 1
    && (forall k :: 0 <= k < |pieces| ==> NoSpace(pieces[k]))
    && (forall k :: 0 <= k < |seps| ==> seps[k] != [] && IsBlank(seps[k]))
    && (forall k :: 0 < k < |pieces| - 1 ==> pieces[k] != [])
  }

  /** `content.split(/\s+/).length`, the word count used throughout the source. */
  function WordCount(s: string): (n: int)
    ensures n >= 1
  {
    |SplitOnSpaces(s)|
  }

  /** One step of the split: the first piece, the first run, then the rest. */
  lemma {:induction false} SplitStep(s: string)
    requires FirstSpace(s) < |s|
    ensures var i := FirstSpace(s); var j := i + SpaceRun(s[i..]);
      && i < j <= |s|
      && SplitOnSpaces(s) == [s[..i]] + SplitOnSpaces(s[j..])
      && Separators(s) == [s[i..j]] + Separators(s[j..])
  {
    StepBounds(s);
    StepPieces(s);
    StepSeparators(s);
  }

  lemma {:induction false} StepBounds(s: string)
    requires FirstSpace(s) < |s|
    ensures FirstSpace(s) < FirstSpace(s) + SpaceRun(s[FirstSpace(s)..]) <= |s|
  {
  }

  lemma {:induction false} StepPieces(s: string)
    requires FirstSpace(s) < |s|
    ensures SplitOnSpaces(s) == [s[..FirstSpace(s)]] + SplitOnSpaces(s[FirstSpace(s) + SpaceRun(s[FirstSpace(s)..])..])
  {
  }

  lemma {:induction false} StepSeparators(s: string)
    requires FirstSpace(s) < |s|
    ensures Separators(s) == [s[FirstSpace(s)..FirstSpace(s) + SpaceRun(s[FirstSpace(s)..])]]
      + Separators(s[FirstSpace(s) + SpaceRun(s[FirstSpace(s)..])..])
  {
  }

  /** A string without whitespace is a single piece. */
  lemma {:induction false} SplitWhole(s: string)
    requires FirstSpace(s) == |s|
    ensures SplitOnSpaces(s) == [s]
    ensures Separators(s) == []
  {
  }

  /** How `Interleave` unfolds at the front. */
  lemma {:induction false} InterleaveCons(a: string, b: string, p: seq<string>, r: seq<string>)
    requires |p| == |r| + 1
    ensures Interleave([a] + p, [b] + r) == a + b + Interleave(p, r)
  {
    assert ([a] + p)[1..] == p;
    assert ([b] + r)[1..] == r;
  }

  /** The slices of a three-part concatenation. */
  lemma {:induction false} Slices(a: string, b: string, c: string)
    ensures var s := a + b + c;
      && s[..|a|] == a && s[|a|..] == b + c
      && s[|a|..|a| + |b|] == b && s[|a| + |b|..] == c
  {
  }

  /** Cutting a string at two offsets and gluing the parts back. */
  lemma {:induction false} Concat3(s: string, i: nat, j: nat)
    requires i <= j <= |s|
    ensures s[..i] + s[i..j] + s[j..] == s
  {
  }

  /** Splitting loses nothing: putting the separators back gives the input. */
  lemma {:induction false} SplitRoundTrip(s: string)
    ensures |SplitOnSpaces(s)| == |Separators(s)| + 1
    ensures Interleave(SplitOnSpaces(s), Separators(s)) == s
    decreases |s|
  {
    var i := FirstSpace(s);
    if i < |s| {
      SplitStep(s);
      var j := i + SpaceRun(s[i..]);
      var tail := s[j..];
      SplitRoundTrip(tail);
      InterleaveCons(s[..i], s[i..j], SplitOnSpaces(tail), Separators(tail));
      Concat3(s, i, j);
    } else {
      SplitWhole(s);
    }
  }

  /** After a whitespace-free prefix, the first whitespace is where the rest begins. */
  lemma {:induction false} FirstSpaceAfterWord(a: string, b: string)
    requires NoSpace(a)
    requires b != [] && IsSpace(b[0])
    ensures FirstSpace(a + b) == |a|
    decreases |a|
  {
    if a != [] {
      assert (a + b)[1..] == a[1..] + b;
      FirstSpaceAfterWord(a[1..], b);
    }
  }

  /** A whitespace-free string has no first whitespace. */
  lemma {:induction false} FirstSpaceOfWord(a: string)
    requires NoSpace(a)
    ensures FirstSpace(a) == |a|
    decreases |a|
  {
    if a != [] {
      FirstSpaceOfWord(a[1..]);
    }
  }

  /** A blank prefix followed by a non-space (or nothing) is exactly one run. */
  lemma {:induction false} SpaceRunOfBlank(a: string, b: string)
    requires IsBlank(a)
    requires b == [] || !IsSpace(b[0])
    ensures SpaceRun(a + b) == |a|
    decreases |a|
  {
    if a != [] {
      assert (a + b)[1..] == a[1..] + b;
      SpaceRunOfBlank(a[1..], b);
    }
  }

  /** What follows the first separator of a well-formed split starts with a non-space. */
  lemma {:induction false} RestStartsWithWord(pieces: seq<string>, seps: seq<string>)
    requires WellSplit(pieces, seps) && seps != []
    ensures var rest := Interleave(pieces[1..], seps[1..]);
      rest == [] || !IsSpace(rest[0])
  {
    var rest := Interleave(pieces[1..], seps[1..]);
    if |seps| == 1 {
      assert rest == pieces[1];
      if rest != [] { assert NoSpace(pieces[1]); }
    } else {
      assert pieces[1] != [] && NoSpace(pieces[1]);
      assert rest == pieces[1] + seps[1] + Interleave(pieces[2..], seps[2..]);
      assert rest[0] == pieces[1][0];
    }
  }

  /** Dropping the first piece and separator keeps a split well formed. */
  lemma {:induction false} WellSplitTail(pieces: seq<string>, seps: seq<string>)
    requires WellSplit(pieces, seps) && seps != []
    ensures WellSplit(pieces[1..], seps[1..])
  {
    forall k | 0 < k < |pieces[1..]| - 1 ensures pieces[1..][k] != [] {
      assert pieces[1..][k] == pieces[k + 1];
    }
  }

  /** The split is the only well-formed decomposition of a string. */
  lemma {:induction false} SplitUnique(s: string, pieces: seq<string>, seps: seq<string>)
    requires WellSplit(pieces, seps)
    requires Interleave(pieces, seps) == s
    ensures pieces == SplitOnSpaces(s)
    ensures seps == Separators(s)
    decreases |seps|
  {
    if seps == [] {
      FirstSpaceOfWord(s);
      SplitWhole(s);
    } else {
      var p0, r0 := pieces[0], seps[0];
      var rest := Interleave(pieces[1..], seps[1..]);
      assert s == p0 + r0 + rest;
      Slices(p0, r0, rest);
      assert s == p0 + (r0 + rest);
      RestStartsWithWord(pieces, seps);
      FirstSpaceAfterWord(p0, r0 + rest);
      assert FirstSpace(s) == |p0|;
      SpaceRunOfBlank(r0, rest);
      assert SpaceRun(s[|p0|..]) == |r0|;
      SplitStep(s);
      WellSplitTail(pieces, seps);
      SplitUnique(rest, pieces[1..], seps[1..]);
      assert pieces == [p0] + pieces[1..];
      assert seps == [r0] + seps[1..];
    }
  }

  /** How `Interleave` extends by one piece at the end. */
  lemma {:induction false} InterleaveSnoc(pieces: seq<string>, seps: seq<string>, sep: string, piece: string)
    requires |pieces| == |seps| + 1
    ensures Interleave(pieces + [piece], seps + [sep]) == Interleave(pieces, seps) + sep + piece
    decreases |seps|
  {
    if seps == [] {
      assert (pieces + [piece])[1..] == [piece];
    } else {
      assert (pieces + [piece])[1..] == pieces[1..] + [piece];
      assert (seps + [sep])[1..] == seps[1..] + [sep];
      InterleaveSnoc(pieces[1..], seps[1..], sep, piece);
    }
  }

  /** A string that starts with a non-space has a nonempty first piece. */
  lemma {:induction false} FirstPieceNonEmpty(t: string)
    requires t != [] && !IsSpace(t[0])
    ensures SplitOnSpaces(t)[0] != []
  {
    assert FirstSpace(t) >= 1;
  }

  /** A whitespace run stops before a final non-space character. */
  lemma {:induction false} RunStopsAtWord(t: string)
    requires t != [] && !IsSpace(t[|t| - 1])
    ensures SpaceRun(t) < |t|
  {
    assert t[..|t|][|t| - 1] == t[|t| - 1];
  }

  /** A string that ends with a non-space has a nonempty last piece. */
  lemma {:induction false} LastPieceNonEmpty(s: string)
    requires s != [] && !IsSpace(s[|s| - 1])
    ensures SplitOnSpaces(s)[|SplitOnSpaces(s)| - 1] != []
    decreases |s|
  {
    var i := FirstSpace(s);
    if i < |s| {
      SplitStep(s);
      var j := i + SpaceRun(s[i..]);
      assert s[i..][|s[i..]| - 1] == s[|s| - 1];
      RunStopsAtWord(s[i..]);
      assert s[j..][|s[j..]| - 1] == s[|s| - 1];
      LastPieceNonEmpty(s[j..]);
    } else {
      SplitWhole(s);
    }
  }

  /** The split always produces a well-formed decomposition. */
  lemma {:induction false} SplitIsWellFormed(s: string)
    ensures WellSplit(SplitOnSpaces(s), Separators(s))
    decreases |s|
  {
    var i := FirstSpace(s);
    if i < |s| {
      SplitStep(s);
      var n := SpaceRun(s[i..]);
      var j := i + n;
      SplitIsWellFormed(s[j..]);
      assert s[i..j] == s[i..][..n];
      if j < |s| {
        assert s[j..][0] == s[i..][n];
        FirstPieceNonEmpty(s[j..]);
      }
      WellSplitCons(s[..i], s[i..j], SplitOnSpaces(s[j..]), Separators(s[j..]));
    } else {
      SplitWhole(s);
      assert s[..i] == s;
    }
  }

  /** A word, a run and a well-formed split of the rest form a well-formed split. */
  lemma {:induction false} WellSplitCons(w: string, run: string, rest: seq<string>, rseps: seq<string>)
    requires NoSpace(w) && run != [] && IsBlank(run)
    requires WellSplit(rest, rseps)
    requires |rest| > 1 ==> rest[0] != []
    ensures WellSplit([w] + rest, [run] + rseps)
  {
    var p, r := [w] + rest, [run] + rseps;
    forall k | 0 <= k < |p| ensures NoSpace(p[k]) {
      if k > 0 { assert p[k] == rest[k - 1]; }
    }
    forall k | 0 <= k < |r| ensures r[k] != [] && IsBlank(r[k]) {
      if k > 0 { assert r[k] == rseps[k - 1]; }
    }
    forall k | 0 < k < |p| - 1 ensures p[k] != [] {
      assert p[k] == rest[k - 1];
    }
  }

  /** Leading whitespace adds an empty first piece. */
  lemma {:induction false} LeadingSpaceAddsPiece(w: string, s: string)
    requires w != [] && IsBlank(w)
    requires s == [] || !IsSpace(s[0])
    ensures SplitOnSpaces(w + s) == [""] + SplitOnSpaces(s)
    ensures WordCount(w + s) == WordCount(s) + 1
  {
    assert FirstSpace(w + s) == 0;
    SpaceRunOfBlank(w, s);
    assert (w + s)[|w|..] == s;
  }

  /** Trailing whitespace adds an empty last piece. */
  lemma {:induction false} TrailingSpaceAddsPiece(s: string, w: string)
    requires s != [] && !IsSpace(s[|s| - 1])
    requires w != [] && IsBlank(w)
    ensures SplitOnSpaces(s + w) == SplitOnSpaces(s) + [""]
    ensures WordCount(s + w) == WordCount(s) + 1
  {
    var p, r := SplitOnSpaces(s), Separators(s);
    SplitRoundTrip(s);
    SplitIsWellFormed(s);
    var n := |p|;
    LastPieceNonEmpty(s);
    InterleaveSnoc(p, r, w, "");
    assert WellSplit(p + [""], r + [w]) by {
      var p' := p + [""];
      forall k | 0 <= k < |p'| ensures NoSpace(p'[k]) {
        if k < n { assert p'[k] == p[k]; }
      }
      forall k | 0 < k < |p'| - 1 ensures p'[k] != [] {
        assert p'[k] == p[k];
      }
      var r' := r + [w];
      forall k | 0 <= k < |r'| ensures r'[k] != [] && IsBlank(r'[k]) {
        if k < |r| { assert r'[k] == r[k]; }
      }
    }
    SplitUnique(s + w, p + [""], r + [w]);
  }

  /** Whitespace-only content still counts as two words. */
  lemma {:induction false} BlankCountsTwo(s: string)
    requires s != [] && IsBlank(s)
    ensures WordCount(s) == 2
  {
    LeadingSpaceAddsPiece(s, "");
    assert s + "" == s;
  }

  // ---------------------------------------------------------------------------
  // length: UTF-16 code units
  // ---------------------------------------------------------------------------

  /** `s.length` in JavaScript: code points above U+FFFF take two code units. */
  function Utf16Length(s: string): (n: nat)
    ensures |s| <= n <= 2 * |s|
    ensures (forall k :: 0 <= k < |s| ==> s[k] as int <= 0xFFFF) ==> n == |s|
  {
    if s == [] then 0
    else (if s[0] as int > 0xFFFF then 2 else 1) + Utf16Length(s[1..])
  }

  // ---------------------------------------------------------------------------
  // Case mapping (ASCII letters)
  // ---------------------------------------------------------------------------

  predicate IsUpperAscii(c: char) { 'A' <= c <= 'Z' }

  predicate IsLowerAscii(c: char) { 'a' <= c <= 'z' }

  function LowerChar(c: char): (d: char)
    ensures !IsUpperAscii(d)
    ensures IsUpperAscii(c) ==> d as int == c as int + 32
    ensures !IsUpperAscii(c) ==> d == c
  {
    if IsUpperAscii(c) then (c as int + 32) as char else c
  }

  function UpperChar(c: char): (d: char)
    ensures !IsLowerAscii(d)
    ensures IsLowerAscii(c) ==> d as int == c as int - 32
    ensures !IsLowerAscii(c) ==> d == c
  {
    if IsLowerAscii(c) then (c as int - 32) as char else c
  }

  /** `s.toLowerCase()` for ASCII letters. */
  function ToLower(s: string): (r: string)
    ensures |r| == |s|
    ensures forall k :: 0 <= k < |s| ==> r[k] == LowerChar(s[k])
  {
    seq(|s|, k requires 0 <= k < |s| => LowerChar(s[k]))
  }

  /** `s.toUpperCase()` for ASCII letters. */
  function ToUpper(s: string): (r: string)
    ensures |r| == |s|
    ensures forall k :: 0 <= k < |s| ==> r[k] == UpperChar(s[k])
  {
    seq(|s|, k requires 0 <= k < |s| => UpperChar(s[k]))
  }

  lemma {:induction false} ToLowerIdempotent(s: string)
    ensures ToLower(ToLower(s)) == ToLower(s)
  {
  }

  // ---------------------------------------------------------------------------
  // includes
  // ---------------------------------------------------------------------------

  /** `pat` occurs in `s` at offset `i`. */
  predicate OccursAt(pat: string, s: string, i: int) {
    0 <= i <= |s| - |pat| && s[i..i + |pat|] == pat
  }

  /** `pat` occurs in `s` at some offset. */
  ghost predicate Occurs(pat: string, s: string) {
    exists i :: OccursAt(pat, s, i)
  }

  /** `s.includes(pat)`, searched left to right. */
  function Includes(s: string, pat: string): (b: bool)
    ensures b <==> Occurs(pat, s)
    decreases |s|
  {
    if |pat| > |s| then false
    else if s[..|pat|] == pat then assert OccursAt(pat, s, 0); true
    else
      var b := Includes(s[1..], pat);
      assert b ==> Occurs(pat, s) by {
        if b {
          var i :| OccursAt(pat, s[1..], i);
          assert s[i + 1..i + 1 + |pat|] == pat;
          assert OccursAt(pat, s, i + 1);
        }
      }
      assert Occurs(pat, s) ==> b by {
        if Occurs(pat, s) {
          var i :| OccursAt(pat, s, i);
          assert i != 0;
          assert s[1..][i - 1..i - 1 + |pat|] == pat;
          assert OccursAt(pat, s[1..], i - 1);
        }
      }
      b
  }

  /** The empty string occurs everywhere. */
  lemma {:induction false} EmptyOccurs(s: string)
    ensures Occurs("", s)
  {
    assert OccursAt("", s, 0);
  }

  /** Nothing but the empty string occurs in the empty string. */
  lemma {:induction false} OccursInEmpty(pat: string)
    requires Occurs(pat, "")
    ensures pat == ""
  {
  }

  /** A string that occurs in an occurrence occurs in the whole. */
  lemma {:induction false} OccursTransitive(inner: string, middle: string, s: string)
    requires Occurs(inner, middle) && Occurs(middle, s)
    ensures Occurs(inner, s)
  {
    var i :| OccursAt(middle, s, i);
    var j :| OccursAt(inner, middle, j);
    forall k | 0 <= k < |inner|
      ensures s[i + j..i + j + |inner|][k] == inner[k]
    {
      assert inner[k] == middle[j + k] == s[i..i + |middle|][j + k];
    }
    assert OccursAt(inner, s, i + j);
  }

  // ---------------------------------------------------------------------------
  // split on a character, replace, join
  // ---------------------------------------------------------------------------

  /** Offset of the first `c` in `s`, or `|s|` when there is none. */
  function IndexOf(s: string, c: char): (i: nat)
    ensures i <= |s|
    ensures forall k :: 0 <= k < i ==> s[k] != c
    ensures i < |s| ==> s[i] == c
  {
    if s == [] then 0 else if s[0] == c then 0 else 1 + IndexOf(s[1..], c)
  }

  /** `s.split(c)` for a one-character separator: "" splits into [""]. */
  function SplitOnChar(s: string, c: char): (pieces: seq<string>)
    ensures |pieces| >= 1
    ensures forall k :: 0 <= k < |pieces| ==> c !in pieces[k]
    decreases |s|
  {
    var i := IndexOf(s, c);
    if i == |s| then [s] else [s[..i]] + SplitOnChar(s[i + 1..], c)
  }

  /** `pieces.join(sep)`. */
  function Join(pieces: seq<string>, sep: string): string {
    if pieces == [] then ""
    else if |pieces| == 1 then pieces[0]
    else pieces[0] + sep + Join(pieces[1..], sep)
  }

  /** Splitting on a character and joining with it gives the input back. */
  lemma {:induction false} SplitOnCharRoundTrip(s: string, c: char)
    ensures Join(SplitOnChar(s, c), [c]) == s
    decreases |s|
  {
    var i := IndexOf(s, c);
    if i < |s| {
      SplitOnCharRoundTrip(s[i + 1..], c);
      var rest := SplitOnChar(s[i + 1..], c);
      assert SplitOnChar(s, c) == [s[..i]] + rest;
      assert s == s[..i] + [c] + s[i + 1..];
    }
  }

  /** `s.replace(from, to)` with a one-character pattern: only the first
      occurrence is replaced. */
  function ReplaceFirst(s: string, from: char, to: char): (r: string)
    ensures |r| == |s|
    ensures forall k :: 0 <= k < |s| ==> r[k] == (if k == IndexOf(s, from) then to else s[k])
  {
    var i := IndexOf(s, from);
    if i == |s| then s else s[..i] + [to] + s[i + 1..]
  }

  // ---------------------------------------------------------------------------
  // Decimal rendering of integers (template literals)
  // ---------------------------------------------------------------------------

  predicate IsDigit(c: char) { '0' <= c <= '9' }

  function DigitChar(d: nat): (c: char)
    requires d < 10
    ensures IsDigit(c)
  {
    ('0' as int + d) as char
  }

  /** Decimal digits of `n`, without leading zeros. */
  function NatToString(n: nat): (s: string)
    ensures |s| >= 1
    ensures forall k :: 0 <= k < |s| ==> IsDigit(s[k])
    ensures n > 0 ==> s[0] != '0'
    decreases n
  {
    if n < 10 then [DigitChar(n)] else NatToString(n / 10) + [DigitChar(n % 10)]
  }

  /** `${n}` for an integer `n`. */
  function IntToString(n: int): string {
    if n < 0 then "-" + NatToString(-n) else NatToString(n)
  }

  /** Reads decimal digits back. */
  function DigitValue(c: char): nat
    requires IsDigit(c)
  {
    c as int - '0' as int
  }

  function ParseNat(s: string): nat
    requires forall k :: 0 <= k < |s| ==> IsDigit(s[k])
  {
    if s == [] then 0
    else
      assert IsDigit(s[|s| - 1]);
      ParseNat(s[..|s| - 1]) * 10 + DigitValue(s[|s| - 1])
  }

  lemma {:induction false} NatToStringRoundTrip(n: nat)
    ensures ParseNat(NatToString(n)) == n
    decreases n
  {
    if n >= 10 {
      NatToStringRoundTrip(n / 10);
      var s := NatToString(n);
      assert s[..|s| - 1] == NatToString(n / 10);
    }
  }
}
