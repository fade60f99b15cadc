/** The handful of Python string operations the calendar scraper relies on:
    `str.split()` with no argument, `int(text)` in base 10, the ASCII
    lower-casing behind `strptime("%B")`, and the substring test `pat in s`. */
module PyText {
  import opened Wrappers

  /** `str.isspace()`: the characters `str.split()` separates on. */
  predicate IsSpace(c: char) {
    || '\t' <= c <= '\r'
    || '\U{1C}' <= c <= '\U{1F}'
    || c == ' ' || c == '\U{85}' || c == '\U{A0}' || c == '\U{1680}'
    || '\U{2000}' <= c <= '\U{200A}'
    || c == '\U{2028}' || c == '\U{2029}' || c == '\U{202F}' || c == '\U{205F}'
    || c == '\U{3000}'
  }

  /** The whitespace `int()` strips around its literal: the same set without
      the four ASCII information separators U+001C..U+001F. */
  predicate IsIntSpace(c: char) {
    IsSpace(c) && !('\U{1C}' <= c <= '\U{1F}')
  }

  predicate NoSpace(s: string) {
    forall i :: 0 <= i < |s| ==> !IsSpace(s[i])
  }

  // ---------------------------------------------------------------------------
  // str.split()

  /** Length of the leading run of non-space characters. */
  function TokenLength(s: string): (n: nat)
    ensures n <= |s|
    ensures NoSpace(s[..n])
    ensures n == |s| || IsSpace(s[n])
    ensures |s| > 0 && !IsSpace(s[0]) ==> n > 0
  {
    if |s| == 0 || IsSpace(s[0]) then 0 else 1 + TokenLength(s[1..])
  }

  /** The characters of `s` that are not whitespace, in order. */
  function NonSpace(s: string): string {
    if |s| == 0 then []
    else if IsSpace(s[0]) then NonSpace(s[1..])
    else [s[0]] + NonSpace(s[1..])
  }

  function Concat(ts: seq<string>): string {
    if |ts| == 0 then [] else ts[0] + Concat(ts[1..])
  }

  /** `s.split()`: the maximal runs of non-whitespace characters. Every token
      is non-empty and free of whitespace, and together the tokens hold
      exactly the non-whitespace characters of `s`, in order. */
  function Split(s: string): (r: seq<string>)
    ensures forall k :: 0 <= k < |r| ==> |r[k]| > 0 && NoSpace(r[k])
    ensures Concat(r) == NonSpace(s)
    decreases |s|
  {
    if |s| == 0 then []
    else if IsSpace(s[0]) then Split(s[1..])
    else
      var n := TokenLength(s);
      NonSpaceSplit(s, n);
      [s[..n]] + Split(s[n..])
  }

  lemma {:induction false} NonSpaceOfSpaceFree(s: string)
    requires NoSpace(s)
    ensures NonSpace(s) == s
  {
    if |s| > 0 {
      NonSpaceOfSpaceFree(s[1..]);
    }
  }

  lemma {:induction false} NonSpaceSplit(s: string, n: nat)
    requires n <= |s| && NoSpace(s[..n])
    ensures NonSpace(s) == s[..n] + NonSpace(s[n..])
  {
    assert s == s[..n] + s[n..];
    NonSpaceAppend(s[..n], s[n..]);
    NonSpaceOfSpaceFree(s[..n]);
  }

  lemma {:induction false} NonSpaceAppend(a: string, b: string)
    ensures NonSpace(a + b) == NonSpace(a) + NonSpace(b)
  {
    if |a| > 0 {
      assert (a + b)[0] == a[0];
      assert (a + b)[1..] == a[1..] + b;
      NonSpaceAppend(a[1..], b);
    } else {
      assert a + b == b;
    }
  }

  /** `" ".join(ts)`. */
  function JoinWords(ts: seq<string>): string {
    if |ts| == 0 then []
    else if |ts| == 1 then ts[0]
    else ts[0] + " " + JoinWords(ts[1..])
  }

  lemma {:induction false} SplitAfterToken(t: string, rest: string)
    requires |t| > 0 && NoSpace(t)
    requires rest == [] || IsSpace(rest[0])
    ensures Split(t + rest) == [t] + Split(rest)
  {
    TokenAfterWord(t, rest);
    assert (t + rest)[..|t|] == t;
    assert (t + rest)[|t|..] == rest;
  }

  lemma {:induction false} TokenAfterWord(t: string, rest: string)
    requires NoSpace(t)
    requires rest == [] || IsSpace(rest[0])
    ensures TokenLength(t + rest) == |t|
  {
    if |t| > 0 {
      assert (t + rest)[1..] == t[1..] + rest;
      TokenAfterWord(t[1..], rest);
    } else {
      assert t + rest == rest;
    }
  }

  /** Round trip: words without whitespace, joined by single spaces, split
      back into the same words. */
  lemma {:induction false} SplitJoinWords(ts: seq<string>)
    requires forall k :: 0 <= k < |ts| ==> |ts[k]| > 0 && NoSpace(ts[k])
    ensures Split(JoinWords(ts)) == ts
  {
    if |ts| == 1 {
      SplitAfterToken(ts[0], []);
      assert ts[0] + [] == ts[0];
    } else if |ts| > 1 {
      var rest := JoinWords(ts[1..]);
      SplitJoinWords(ts[1..]);
      SplitAfterToken(ts[0], " " + rest);
      assert ts[0] + " " + rest == ts[0] + (" " + rest);
      SplitAfterSpaces(" ", rest);
    }
  }

  predicate AllSpace(s: string) {
    forall i :: 0 <= i < |s| ==> IsSpace(s[i])
  }

  /** Length of the leading run of whitespace. */
  function SpaceLength(s: string): (n: nat)
    ensures n <= |s|
    ensures AllSpace(s[..n])
    ensures n == |s| || !IsSpace(s[n])
  {
    if |s| == 0 || !IsSpace(s[0]) then 0 else 1 + SpaceLength(s[1..])
  }

  /** Words laid out with whitespace around and between them:
      `gaps[0] + ts[0] + gaps[1] + ... + ts[n - 1] + gaps[n]`. */
  function Spaced(ts: seq<string>, gaps: seq<string>): string
    requires |gaps| == |ts| + 1
    decreases |ts|
  {
    if |ts| == 0 then gaps[0] else gaps[0] + ts[0] + Spaced(ts[1..], gaps[1..])
  }

  /** The shape of text that `str.split()` cuts into the words `ts`:
      non-empty words free of whitespace, gaps of whitespace only, and at
      least one whitespace character between two words. */
  predicate IsLayout(ts: seq<string>, gaps: seq<string>) {
    && |gaps| == |ts| + 1
    && (forall k :: 0 <= k < |ts| ==> |ts[k]| > 0 && NoSpace(ts[k]))
    && (forall k :: 0 <= k < |gaps| ==> AllSpace(gaps[k]))
    && (forall k :: 0 < k < |ts| ==> |gaps[k]| > 0)
  }

  lemma {:induction false} SplitAfterSpaces(g: string, rest: string)
    requires AllSpace(g)
    ensures Split(g + rest) == Split(rest)
  {
    if |g| > 0 {
      assert (g + rest)[0] == g[0];
      assert (g + rest)[1..] == g[1..] + rest;
      SplitAfterSpaces(g[1..], rest);
    } else {
      assert g + rest == rest;
    }
  }

  lemma {:induction false} SpacedStart(ts: seq<string>, gaps: seq<string>)
    requires |gaps| == |ts| + 1 && |gaps[0]| > 0
    ensures |Spaced(ts, gaps)| > 0 && Spaced(ts, gaps)[0] == gaps[0][0]
  {
  }

  lemma LayoutTail(ts: seq<string>, gaps: seq<string>)
    requires IsLayout(ts, gaps) && |ts| > 0
    ensures IsLayout(ts[1..], gaps[1..])
    ensures |ts| > 1 ==> |gaps[1..][0]| > 0
  {
    assert forall k :: 0 <= k < |ts| - 1 ==> ts[1..][k] == ts[k + 1];
    assert forall k :: 0 <= k < |gaps| - 1 ==> gaps[1..][k] == gaps[k + 1];
  }

  /** A gap, then a word, then text that does not continue the word. */
  lemma SplitGapWord(g: string, w: string, rest: string)
    requires AllSpace(g) && |w| > 0 && NoSpace(w)
    requires rest == [] || IsSpace(rest[0])
    ensures Split(g + w + rest) == [w] + Split(rest)
  {
    assert g + w + rest == g + (w + rest);
    SplitAfterSpaces(g, w + rest);
    SplitAfterToken(w, rest);
  }

  /** `str.split()` undoes every layout: words with whitespace around and
      between them split back into exactly those words. */
  lemma {:induction false} SplitSpaced(ts: seq<string>, gaps: seq<string>)
    requires IsLayout(ts, gaps)
    ensures Split(Spaced(ts, gaps)) == ts
    decreases |ts|
  {
    if |ts| == 0 {
      SplitAfterSpaces(gaps[0], []);
      assert gaps[0] + [] == gaps[0];
    } else {
      var inner := Spaced(ts[1..], gaps[1..]);
      LayoutTail(ts, gaps);
      SplitSpaced(ts[1..], gaps[1..]);
      if |ts| > 1 {
        SpacedStart(ts[1..], gaps[1..]);
      }
      SplitGapWord(gaps[0], ts[0], inner);
      assert [ts[0]] + ts[1..] == ts;
    }
  }

  /** The gaps of `s` around and between the words `Split(s)`. */
  function Gaps(s: string): (gaps: seq<string>)
    ensures |gaps| > 0 && gaps[0] == s[..SpaceLength(s)]
    decreases |s|
  {
    var k := SpaceLength(s);
    if k == |s| then [s]
    else
      var n := TokenLength(s[k..]);
      [s[..k]] + Gaps(s[k..][n..])
  }

  /** A text that is whitespace throughout has no words and a single gap. */
  lemma AllSpaceStep(s: string)
    requires SpaceLength(s) == |s|
    ensures Split(s) == [] && Gaps(s) == [s] && AllSpace(s)
  {
    assert s[..|s|] == s;
    SplitAfterSpaces(s, []);
    assert s + [] == s;
  }

  /** Otherwise the text is a leading gap, a first word and the rest, which
      starts with whitespace if it is not empty. */
  lemma WordStep(s: string) returns (pad: string, tok: string, u: string)
    requires SpaceLength(s) < |s|
    ensures s == pad + (tok + u) && |u| < |s|
    ensures AllSpace(pad) && |tok| > 0 && NoSpace(tok)
    ensures u == [] || IsSpace(u[0])
    ensures Split(s) == [tok] + Split(u) && Gaps(s) == [pad] + Gaps(u)
  {
    var t;
    pad, t := PadStep(s);
    tok, u := TokenStep(t);
    GapsStep(s);
  }

  lemma PadStep(s: string) returns (pad: string, t: string)
    requires SpaceLength(s) < |s|
    ensures pad == s[..SpaceLength(s)] && t == s[SpaceLength(s)..]
    ensures s == pad + t && AllSpace(pad) && |t| > 0 && !IsSpace(t[0])
    ensures Split(s) == Split(t)
  {
    var k := SpaceLength(s);
    pad, t := s[..k], s[k..];
    assert t[0] == s[k];
    assert s == pad + t;
    SplitAfterSpaces(pad, t);
  }

  lemma TokenStep(t: string) returns (tok: string, u: string)
    requires |t| > 0 && !IsSpace(t[0])
    ensures tok == t[..TokenLength(t)] && u == t[TokenLength(t)..]
    ensures t == tok + u && |tok| > 0 && NoSpace(tok)
    ensures u == [] || IsSpace(u[0])
    ensures Split(t) == [tok] + Split(u)
  {
    var n := TokenLength(t);
    tok, u := t[..n], t[n..];
    assert t == tok + u;
    SplitAtToken(t);
  }

  lemma SplitAtToken(t: string)
    requires |t| > 0 && !IsSpace(t[0])
    ensures Split(t) == [t[..TokenLength(t)]] + Split(t[TokenLength(t)..])
  {
  }

  lemma GapsStep(s: string)
    requires SpaceLength(s) < |s|
    ensures Gaps(s) == [s[..SpaceLength(s)]] + Gaps(s[SpaceLength(s)..][TokenLength(s[SpaceLength(s)..])..])
  {
  }

  /** A rest that starts with whitespace has a non-empty leading gap. */
  lemma GapLeads(u: string)
    requires |u| > 0 && IsSpace(u[0])
    ensures |Gaps(u)[0]| > 0
  {
    assert SpaceLength(u) > 0;
  }

  lemma SpacedCons(pad: string, tok: string, ts: seq<string>, gaps: seq<string>)
    requires |gaps| == |ts| + 1
    ensures Spaced([tok] + ts, [pad] + gaps) == pad + (tok + Spaced(ts, gaps))
  {
    assert ([tok] + ts)[1..] == ts;
    assert ([pad] + gaps)[1..] == gaps;
  }

  lemma LayoutCons(pad: string, tok: string, ts: seq<string>, gaps: seq<string>)
    requires IsLayout(ts, gaps) && AllSpace(pad) && |tok| > 0 && NoSpace(tok)
    requires |ts| > 0 ==> |gaps[0]| > 0
    ensures IsLayout([tok] + ts, [pad] + gaps)
  {
    var ts', gaps' := [tok] + ts, [pad] + gaps;
    assert forall j :: 0 < j < |ts'| ==> ts'[j] == ts[j - 1];
    assert forall j :: 0 < j < |gaps'| ==> gaps'[j] == gaps[j - 1];
  }

  /** Every text is a layout of its own split, with the gaps `Gaps(s)`. */
  lemma {:induction false} SplitLayout(s: string)
    ensures IsLayout(Split(s), Gaps(s)) && Spaced(Split(s), Gaps(s)) == s
    decreases |s|
  {
    if SpaceLength(s) == |s| {
      AllSpaceStep(s);
    } else {
      var pad, tok, u := WordStep(s);
      SplitLayout(u);
      var rest, restGaps := Split(u), Gaps(u);
      SpacedCons(pad, tok, rest, restGaps);
      if |rest| > 0 {
        GapLeads(u);
      }
      LayoutCons(pad, tok, rest, restGaps);
    }
  }

  /** `str.split()` characterised on every input: `Split(s)` is `ts`
      exactly when `s` is a layout of the words `ts`. */
  lemma SplitIsLayout(s: string, ts: seq<string>)
    ensures Split(s) == ts <==> exists gaps :: IsLayout(ts, gaps) && Spaced(ts, gaps) == s
  {
    if Split(s) == ts {
      SplitLayout(s);
    }
    if exists gaps :: IsLayout(ts, gaps) && Spaced(ts, gaps) == s {
      var gaps :| IsLayout(ts, gaps) && Spaced(ts, gaps) == s;
      SplitSpaced(ts, gaps);
    }
  }

  // ---------------------------------------------------------------------------
  // ASCII case folding (what `strptime("%B")` compares on)

  function LowerChar(c: char): char {
    if 'A' <= c <= 'Z' then (c as int + 32) as char else c
  }

  function Lower(s: string): (r: string)
    ensures |r| == |s|
    ensures forall i :: 0 <= i < |s| ==> r[i] == LowerChar(s[i])
  {
    if |s| == 0 then [] else [LowerChar(s[0])] + Lower(s[1..])
  }

  // ---------------------------------------------------------------------------
  // `pat in s`

  /** `pat` occurs in `s` starting at position `i`. */
  predicate OccursAt(s: string, pat: string, i: int) {
    0 <= i <= |s| - |pat| && s[i..i + |pat|] == pat
  }

  /** Python's substring test, by scanning the start positions left to right;
      true exactly when `pat` occurs at some position of `s`. */
  function Contains(s: string, pat: string): (r: bool)
    ensures r <==> exists i :: OccursAt(s, pat, i)
    decreases |s|
  {
    if |pat| > |s| then false
    else if s[..|pat|] == pat then
      assert OccursAt(s, pat, 0);
      true
    else
      var r := Contains(s[1..], pat);
      assert r ==> exists i :: OccursAt(s, pat, i) by {
        if r {
          var i :| OccursAt(s[1..], pat, i);
          assert s[i + 1..i + 1 + |pat|] == s[1..][i..i + |pat|];
          assert OccursAt(s, pat, i + 1);
        }
      }
      assert (exists i :: OccursAt(s, pat, i)) ==> r by {
        if exists i :: OccursAt(s, pat, i) {
          var i :| OccursAt(s, pat, i);
          assert i != 0;
          assert s[1..][i - 1..i - 1 + |pat|] == s[i..i + |pat|];
          assert OccursAt(s[1..], pat, i - 1);
        }
      }
      r
  }

  // ---------------------------------------------------------------------------
  // int(text)

  predicate IsDigit(c: char) {
    '0' <= c <= '9'
  }

  /** The digits of a base-10 `int()` literal: ASCII digits, where a single
      underscore may stand between two digits. */
  predicate IsDigitRun(s: string) {
    && |s| > 0 && IsDigit(s[0]) && IsDigit(s[|s| - 1])
    && (forall i :: 0 <= i < |s| ==> IsDigit(s[i]) || s[i] == '_')
    && (forall i :: 0 <= i < |s| - 1 ==> s[i] == '_' ==> s[i + 1] != '_')
  }

  function DropUnderscores(s: string): string {
    if |s| == 0 then []
    else if s[0] == '_' then DropUnderscores(s[1..])
    else [s[0]] + DropUnderscores(s[1..])
  }

  /** The value of a string of decimal digits, most significant first. */
  function DecimalValue(ds: string): nat {
    if |ds| == 0 then 0
    else
      var last := ds[|ds| - 1];
      DecimalValue(ds[..|ds| - 1]) * 10 + (if IsDigit(last) then last as int - '0' as int else 0)
  }

  /** How many characters of `int()`-ignored whitespace open `s`. */
  function LeadingIntSpace(s: string): (n: nat)
    ensures n <= |s|
    ensures forall k :: 0 <= k < n ==> IsIntSpace(s[k])
    ensures n == |s| || !IsIntSpace(s[n])
  {
    if |s| == 0 || !IsIntSpace(s[0]) then 0 else 1 + LeadingIntSpace(s[1..])
  }

  /** The length of `s` without the `int()`-ignored whitespace that closes it. */
  function TrimmedLength(s: string): (n: nat)
    ensures n <= |s|
    ensures forall k :: n <= k < |s| ==> IsIntSpace(s[k])
    ensures n == 0 || !IsIntSpace(s[n - 1])
  {
    if |s| == 0 || !IsIntSpace(s[|s| - 1]) then |s| else TrimmedLength(s[..|s| - 1])
  }

  /** `s.strip()` as `int()` applies it to its argument. */
  function StripIntSpace(s: string): string {
    var t := s[LeadingIntSpace(s)..];
    t[..TrimmedLength(t)]
  }

  /** Stripping removes exactly the padding around a literal whose first and
      last characters are not whitespace. */
  lemma StripPadded(pad1: string, t: string, pad2: string)
    requires forall k :: 0 <= k < |pad1| ==> IsIntSpace(pad1[k])
    requires forall k :: 0 <= k < |pad2| ==> IsIntSpace(pad2[k])
    requires |t| > 0 && !IsIntSpace(t[0]) && !IsIntSpace(t[|t| - 1])
    ensures StripIntSpace(pad1 + t + pad2) == t
  {
    var s := pad1 + t + pad2;
    var i := LeadingIntSpace(s);
    assert s[|pad1|] == t[0];
    assert i == |pad1|;
    var u := s[i..];
    assert u == t + pad2;
    var j := TrimmedLength(u);
    assert u[|t| - 1] == t[|t| - 1];
    assert j == |t|;
    assert u[..j] == t;
  }

  /** `int(text)`: `None` where Python raises `ValueError`. Surrounding
      whitespace, one optional sign and underscores between digits are
      accepted; anything accepted contains a digit. */
  function ParseInt(s: string): (r: Option<int>)
    ensures r.Some? ==> exists i :: 0 <= i < |s| && IsDigit(s[i])
  {
    var t := StripIntSpace(s);
    if |t| > 0 && (t[0] == '+' || t[0] == '-') then
      if IsDigitRun(t[1..]) then
        var v: int := DecimalValue(DropUnderscores(t[1..]));
        assert IsDigit(t[1..][0]);
        Some(if t[0] == '-' then -v else v)
      else None
    else if IsDigitRun(t) then
      assert IsDigit(t[0]);
      Some(DecimalValue(DropUnderscores(t)))
    else None
  }

  /** `str(n)` for a natural number. */
  function ShowNat(n: nat): (r: string)
    ensures |r| > 0
    decreases n
  {
    if n < 10 then [('0' as int + n) as char]
    else ShowNat(n / 10) + [('0' as int + n % 10) as char]
  }

  /** `str(n)`. */
  function ShowInt(n: int): string {
    if n < 0 then "-" + ShowNat(-n) else ShowNat(n)
  }

  lemma {:induction false} ShowNatFacts(n: nat)
    ensures forall i :: 0 <= i < |ShowNat(n)| ==> IsDigit(ShowNat(n)[i])
    ensures DropUnderscores(ShowNat(n)) == ShowNat(n)
    ensures DecimalValue(ShowNat(n)) == n
    decreases n
  {
    if n >= 10 {
      ShowNatFacts(n / 10);
      var s := ShowNat(n / 10);
      var c := ('0' as int + n % 10) as char;
      assert ShowNat(n) == s + [c];
      assert (s + [c])[..|s + [c]| - 1] == s;
      DropUnderscoresAppend(s, [c]);
    }
  }

  lemma {:induction false} DropUnderscoresAppend(a: string, b: string)
    ensures DropUnderscores(a + b) == DropUnderscores(a) + DropUnderscores(b)
  {
    if |a| > 0 {
      assert (a + b)[1..] == a[1..] + b;
      DropUnderscoresAppend(a[1..], b);
    } else {
      assert a + b == b;
    }
  }

  /** The digits of `str(n)` form a literal `int()` reads back as `n`. */
  lemma ShowNatIsDigitRun(n: nat)
    ensures IsDigitRun(ShowNat(n))
    ensures DecimalValue(DropUnderscores(ShowNat(n))) == n
  {
    ShowNatFacts(n);
  }

  /** `int()` reads the literal `str(n)` back as `n`. */
  lemma ParseShownInt(s: string, n: int)
    requires StripIntSpace(s) == ShowInt(n)
    ensures ParseInt(s) == Some(n)
  {
    var t := StripIntSpace(s);
    if n < 0 {
      var ds := ShowNat(-n);
      ShowNatIsDigitRun(-n);
      assert t == "-" + ds;
      assert t[0] == '-' && t[1..] == ds;
      assert DecimalValue(DropUnderscores(t[1..])) == -n;
    } else {
      ShowNatIsDigitRun(n);
      assert t == ShowNat(n);
      assert t[0] != '+' && t[0] != '-' by {
        ShowNatFacts(n);
        assert IsDigit(t[0]);
      }
    }
  }

  /** Round trip: `int(str(n)) == n` for every integer, with any whitespace
      `int()` ignores around the digits. */
  lemma IntRoundTrip(n: int, pad1: string, pad2: string)
    requires forall k :: 0 <= k < |pad1| ==> IsIntSpace(pad1[k])
    requires forall k :: 0 <= k < |pad2| ==> IsIntSpace(pad2[k])
    ensures ParseInt(pad1 + ShowInt(n) + pad2) == Some(n)
  {
    var shown := ShowInt(n);
    var m: nat := if n < 0 then -n else n;
    ShowNatIsDigitRun(m);
    assert !IsIntSpace(shown[0]) && !IsIntSpace(shown[|shown| - 1]) by {
      if n < 0 {
        assert shown[1..] == ShowNat(m);
        assert shown[|shown| - 1] == ShowNat(m)[|ShowNat(m)| - 1];
      }
    }
    StripPadded(pad1, shown, pad2);
    ParseShownInt(pad1 + shown + pad2, n);
  }

  /** A text `int()` accepts once stripped: one optional sign, then digits
      with single underscores between them. */
  predicate IsIntLiteral(t: string) {
    || IsDigitRun(t)
    || (|t| > 0 && (t[0] == '+' || t[0] == '-') && IsDigitRun(t[1..]))
  }

  /** `int()` succeeds exactly on the texts whose stripped form is a literal. */
  lemma ParseIntAccepts(s: string)
    ensures ParseInt(s).Some? <==> IsIntLiteral(StripIntSpace(s))
  {
    var t := StripIntSpace(s);
    if IsDigitRun(t) {
      assert IsDigit(t[0]);
    }
  }

  function StripZeros(ds: string): (r: string)
    ensures |r| == 0 || r[0] != '0'
  {
    if |ds| > 0 && ds[0] == '0' then StripZeros(ds[1..]) else ds
  }

  /** A literal in the form `str()` would print its value: no `+` sign, no
      underscores, no leading zeros, and no sign on zero. */
  function Canon(t: string): string {
    var signed := |t| > 0 && (t[0] == '+' || t[0] == '-');
    var digits := StripZeros(DropUnderscores(if signed then t[1..] else t));
    if digits == [] then "0"
    else if signed && t[0] == '-' then "-" + digits
    else digits
  }

  predicate AllDigits(ds: string) {
    forall i :: 0 <= i < |ds| ==> IsDigit(ds[i])
  }

  lemma {:induction false} DropUnderscoresOfRun(s: string)
    requires forall i :: 0 <= i < |s| ==> IsDigit(s[i]) || s[i] == '_'
    ensures AllDigits(DropUnderscores(s))
  {
    if |s| > 0 {
      DropUnderscoresOfRun(s[1..]);
      assert forall i :: 0 <= i < |s| - 1 ==> s[1..][i] == s[i + 1];
    }
  }

  lemma {:induction false} DecimalLeadingZero(x: string)
    ensures DecimalValue(['0'] + x) == DecimalValue(x)
    decreases |x|
  {
    var y := ['0'] + x;
    if |x| > 0 {
      var init := x[..|x| - 1];
      assert y[..|y| - 1] == ['0'] + init;
      assert y[|y| - 1] == x[|x| - 1];
      DecimalLeadingZero(init);
    }
  }

  lemma {:induction false} StripZerosValue(ds: string)
    requires AllDigits(ds)
    ensures AllDigits(StripZeros(ds))
    ensures DecimalValue(StripZeros(ds)) == DecimalValue(ds)
    decreases |ds|
  {
    if |ds| > 0 && ds[0] == '0' {
      assert ds == ['0'] + ds[1..];
      DecimalLeadingZero(ds[1..]);
      assert forall i :: 0 <= i < |ds| - 1 ==> ds[1..][i] == ds[i + 1];
      StripZerosValue(ds[1..]);
    }
  }

  /** Digits without a leading zero print back as themselves. */
  lemma {:induction false} ShowDecimal(ds: string)
    requires |ds| > 0 && AllDigits(ds) && ds[0] != '0'
    ensures DecimalValue(ds) > 0
    ensures ShowNat(DecimalValue(ds)) == ds
    decreases |ds|
  {
    var init, c := ds[..|ds| - 1], ds[|ds| - 1];
    var d := c as int - '0' as int;
    assert DecimalValue(ds) == DecimalValue(init) * 10 + d;
    if |init| == 0 {
      assert ds == [c];
    } else {
      assert init[0] == ds[0];
      ShowDecimal(init);
      var n := DecimalValue(ds);
      assert n / 10 == DecimalValue(init) && n % 10 == d;
      assert ds == init + [c];
    }
  }

  lemma ShowIntInjective(m: int, n: int)
    requires ShowInt(m) == ShowInt(n)
    ensures m == n
  {
    assert [] + ShowInt(m) + [] == ShowInt(m);
    IntRoundTrip(m, [], []);
    IntRoundTrip(n, [], []);
  }

  /** The value of a literal: `int()` returns the integer that `str()`
      prints as the literal's canonical form. */
  lemma LiteralValue(s: string)
    requires IsIntLiteral(StripIntSpace(s))
    ensures ParseInt(s).Some? && Canon(StripIntSpace(s)) == ShowInt(ParseInt(s).value)
  {
    ParseIntAccepts(s);
    var t := StripIntSpace(s);
    var signed := |t| > 0 && (t[0] == '+' || t[0] == '-');
    var run := if signed then t[1..] else t;
    assert IsDigitRun(run);
    DropUnderscoresOfRun(run);
    var ds := DropUnderscores(run);
    StripZerosValue(ds);
    var digits := StripZeros(ds);
    var v: int := DecimalValue(ds);
    assert ParseInt(s).value == (if signed && t[0] == '-' then -v else v);
    if digits != [] {
      ShowDecimal(digits);
    }
  }

  /** `int(s)` is `n` exactly when the stripped text is a literal whose
      canonical form is `str(n)`. */
  lemma ParseIntCanonical(s: string, n: int)
    ensures ParseInt(s) == Some(n) <==> (IsIntLiteral(StripIntSpace(s)) && Canon(StripIntSpace(s)) == ShowInt(n))
  {
    ParseIntAccepts(s);
    if IsIntLiteral(StripIntSpace(s)) {
      LiteralValue(s);
      if Canon(StripIntSpace(s)) == ShowInt(n) {
        ShowIntInjective(ParseInt(s).value, n);
      }
    }
  }

  /** `int("-0")` is zero: the sign of zero disappears. */
  lemma ParseNegativeZero()
    ensures ParseInt("-0") == Some(0)
  {
    ParseIntCanonical("-0", 0);
  }

  /** `int("+7")` is 7: a `+` sign is dropped. */
  lemma ParsePlusSign()
    ensures ParseInt("+7") == Some(7)
  {
    ParseIntCanonical("+7", 7);
  }

  /** `int("1__0")` raises: only single underscores may separate digits. */
  lemma DoubledUnderscore()
    ensures ParseInt("1__0") == None
  {
    var t := "1__0";
    assert StripIntSpace(t) == t by {
      StripPadded([], t, []);
      assert [] + t + [] == t;
    }
    assert t[1] == '_' && t[2] == '_';
    assert !IsDigitRun(t);
    ParseIntAccepts(t);
  }
}
