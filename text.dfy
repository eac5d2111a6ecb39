/**
 * Character classes and string operations shared by the normaliser, the router and the
 * reminder store: Python's `str.strip`, `str.lower`, `in`, `startswith`, `str.replace(.., 1)`,
 * the regular-expression classes `\s`, `\w`, `\d` and `\b`, and decimal `int`/`str`.
 * Everything is ASCII: non-ASCII characters are neither letters, digits nor whitespace.
 */
module Text {
  import opened Options

  /** The characters `str.isspace()` (and so `\s` and argument-less `strip()`) accept in ASCII. */
  const Whitespace: set<char> := set c: char | '\t' <= c <= '\r' || '\U{1C}' <= c <= ' '

  predicate IsSpace(c: char) { c in Whitespace }

  predicate IsDigit(c: char) { '0' <= c <= '9' }

  predicate IsUpper(c: char) { 'A' <= c <= 'Z' }

  /** The regular-expression class `\w` restricted to ASCII: `[A-Za-z0-9_]`. */
  predicate IsWordChar(c: char) { 'a' <= c <= 'z' || IsUpper(c) || IsDigit(c) || c == '_' }

  predicate AllSpace(s: string) { forall i :: 0 <= i < |s| ==> IsSpace(s[i]) }

  predicate AllDigits(s: string) { forall i :: 0 <= i < |s| ==> IsDigit(s[i]) }

  predicate NoUpper(s: string) { forall i :: 0 <= i < |s| ==> !IsUpper(s[i]) }

  // ---------------------------------------------------------------------------------------
  // Case

  function LowerChar(c: char): char {
    if IsUpper(c) then (c as int + 32) as char else c
  }

  /** `str.lower()` on ASCII. */
  function Lower(s: string): (r: string)
    ensures |r| == |s|
    ensures forall i :: 0 <= i < |s| ==> r[i] == LowerChar(s[i])
  {
    if s == [] then [] else [LowerChar(s[0])] + Lower(s[1..])
  }

  /** Lower-casing neither creates nor removes whitespace. */
  lemma LowerCharSpace(c: char)
    ensures IsSpace(LowerChar(c)) <==> IsSpace(c)
  {
  }

  // ---------------------------------------------------------------------------------------
  // Stripping

  /** `s.lstrip(chars)`: drops the longest prefix made of characters in `cs`. */
  function TrimLeft(s: string, cs: set<char>): (r: string)
    ensures |r| <= |s| && r == s[|s| - |r|..]
    ensures r != [] ==> r[0] !in cs
    ensures forall i :: 0 <= i < |s| - |r| ==> s[i] in cs
  {
    if s != [] && s[0] in cs then TrimLeft(s[1..], cs) else s
  }

  /** `s.rstrip(chars)`: drops the longest suffix made of characters in `cs`. */
  function TrimRight(s: string, cs: set<char>): (r: string)
    ensures |r| <= |s| && r == s[..|r|]
    ensures r != [] ==> r[|r| - 1] !in cs
    ensures forall i :: |r| <= i < |s| ==> s[i] in cs
  {
    if s != [] && s[|s| - 1] in cs then TrimRight(s[..|s| - 1], cs) else s
  }

  /** `s.strip(chars)`; `Strip(s, Whitespace)` is `s.strip()`. */
  function Strip(s: string, cs: set<char>): string {
    TrimRight(TrimLeft(s, cs), cs)
  }

  /** Characters of `cs` in front of `y` are all trimmed away. */
  lemma {:induction false} TrimLeftAfter(p: string, y: string, cs: set<char>)
    requires forall i :: 0 <= i < |p| ==> p[i] in cs
    ensures TrimLeft(p + y, cs) == TrimLeft(y, cs)
  {
    if p == [] {
      assert p + y == y;
    } else {
      var s := p + y;
      assert s[0] == p[0] && s[1..] == p[1..] + y;
      TrimLeftAfter(p[1..], y, cs);
    }
  }

  /** Characters of `cs` after `p` are all trimmed away, and no more when `p` ends in a
      character not in `cs`. */
  lemma {:induction false} TrimRightBefore(p: string, q: string, cs: set<char>)
    requires forall i :: 0 <= i < |q| ==> q[i] in cs
    requires p == [] || p[|p| - 1] !in cs
    ensures TrimRight(p + q, cs) == p
  {
    if q == [] {
      assert p + q == p;
    } else {
      var s := p + q;
      assert s[|s| - 1] == q[|q| - 1] && s[..|s| - 1] == p + q[..|q| - 1];
      TrimRightBefore(p, q[..|q| - 1], cs);
    }
  }

  /** What `Strip` keeps is the slice of `s` from `a`, every character cut off either side is in
      `cs`, and the characters at its ends are not. */
  lemma StripSpec(s: string, cs: set<char>)
    ensures var a, r := |s| - |TrimLeft(s, cs)|, Strip(s, cs);
      a + |r| <= |s| && r == s[a..a + |r|]
      && (forall i :: 0 <= i < a ==> s[i] in cs)
      && (forall i :: a + |r| <= i < |s| ==> s[i] in cs)
      && (r != [] ==> r[0] !in cs && r[|r| - 1] !in cs)
  {
    // Each conjunct is cheap on its own and costly together, so each has a lemma of its own.
    StripSlice(s, cs);
    StripCutLeft(s, cs);
    StripCutRight(s, cs);
    StripFirst(s, cs);
    StripLast(s, cs);
  }

  lemma StripSlice(s: string, cs: set<char>)
    ensures var a, r := |s| - |TrimLeft(s, cs)|, Strip(s, cs);
      a + |r| <= |s| && r == s[a..a + |r|]
  {
  }

  lemma StripCutLeft(s: string, cs: set<char>)
    ensures forall i :: 0 <= i < |s| - |TrimLeft(s, cs)| ==> s[i] in cs
  {
  }

  lemma StripCutRight(s: string, cs: set<char>)
    ensures forall i :: |s| - |TrimLeft(s, cs)| + |Strip(s, cs)| <= i < |s| ==> s[i] in cs
  {
  }

  lemma StripFirst(s: string, cs: set<char>)
    ensures Strip(s, cs) != [] ==> Strip(s, cs)[0] !in cs
  {
  }

  lemma StripLast(s: string, cs: set<char>)
    ensures var r := Strip(s, cs); r != [] ==> r[|r| - 1] !in cs
  {
  }

  // ---------------------------------------------------------------------------------------
  // Searching

  /** `pat` occurs in `s` starting at index `i`. */
  predicate OccursAt(s: string, pat: string, i: int) {
    0 <= i && i + |pat| <= |s| && s[i..i + |pat|] == pat
  }

  /** `s.startswith(p)`. */
  predicate StartsWith(s: string, p: string) {
    |p| <= |s| && s[..|p|] == p
  }

  /** `s.find(pat)` as an option: the leftmost occurrence, which is where `re.search` matches a literal. */
  function IndexOf(s: string, pat: string): (r: Option<nat>)
    ensures r.Some? ==> OccursAt(s, pat, r.value)
    ensures forall i :: 0 <= i && (r.None? || i < r.value) ==> !OccursAt(s, pat, i)
  {
    IndexFrom(s, pat, 0)
  }

  function IndexFrom(s: string, pat: string, k: nat): (r: Option<nat>)
    requires k <= |s| + 1
    ensures r.Some? ==> k <= r.value && OccursAt(s, pat, r.value)
    ensures forall i :: k <= i && (r.None? || i < r.value) ==> !OccursAt(s, pat, i)
    decreases |s| + 1 - k
  {
    if k + |pat| > |s| then None
    else if s[k..k + |pat|] == pat then Some(k)
    else IndexFrom(s, pat, k + 1)
  }

  /** Python's `pat in s`. */
  predicate Contains(s: string, pat: string) {
    IndexOf(s, pat).Some?
  }

  lemma ContainsSpec(s: string, pat: string)
    ensures Contains(s, pat) <==> exists i :: OccursAt(s, pat, i)
  {
    if exists i :: OccursAt(s, pat, i) {
      var i :| OccursAt(s, pat, i);
      assert IndexOf(s, pat).Some?;
    }
  }

  /** The two halves of a concatenation. */
  lemma Halves<T>(a: seq<T>, b: seq<T>)
    ensures (a + b)[..|a|] == a && (a + b)[|a|..] == b
  {
  }

  /** Dropping a prefix of the left operand of a concatenation. */
  lemma DropFromAppend<T>(a: seq<T>, b: seq<T>, k: nat)
    requires k <= |a|
    ensures (a + b)[k..] == a[k..] + b
  {
  }

  lemma AppendAssoc<T>(a: seq<T>, b: seq<T>, c: seq<T>)
    ensures (a + b) + c == a + (b + c)
  {
  }

  /** Regrouping a concatenation of five parts to the right. */
  lemma RightGrouped<T>(a: seq<T>, b: seq<T>, c: seq<T>, d: seq<T>, e: seq<T>)
    ensures a + b + c + d + e == a + (b + (c + (d + e)))
  {
  }

  /** A string built as `p + sep + c` starts with `p`, and what follows `p` is `sep + c`. */
  lemma PrefixParts(p: string, sep: string, c: string)
    ensures StartsWith(p + sep + c, p) && (p + sep + c)[|p|..] == sep + c
  {
    assert (p + sep + c)[..|p|] == p;
  }

  /** `s.replace(pat, rep, 1)`. */
  function ReplaceFirst(s: string, pat: string, rep: string): string {
    match IndexOf(s, pat)
    case None => s
    case Some(i) => s[..i] + rep + s[i + |pat|..]
  }

  /** `s.startswith(ps)` for a tuple `ps`: some prefix in `ps` begins `s`. */
  predicate StartsWithAny(s: string, ps: seq<string>) {
    exists j :: 0 <= j < |ps| && StartsWith(s, ps[j])
  }

  // ---------------------------------------------------------------------------------------
  // Whole words: `\bw\b` for a keyword `w` made of word characters.

  /** `w` occurs at `i` with a non-word character (or an end of `s`) on either side. */
  predicate WholeWordAt(s: string, w: string, i: int) {
    OccursAt(s, w, i)
    && (i == 0 || !IsWordChar(s[i - 1]))
    && (i + |w| == |s| || !IsWordChar(s[i + |w|]))
  }

  /** Left-to-right scan for a whole-word occurrence of `w` at index `k` or later. */
  function FindWordFrom(s: string, w: string, k: nat): (found: bool)
    requires k <= |s| + 1
    ensures found <==> exists i :: k <= i && WholeWordAt(s, w, i)
    decreases |s| + 1 - k
  {
    if k + |w| > |s| then false
    else WholeWordAt(s, w, k) || FindWordFrom(s, w, k + 1)
  }

  // ---------------------------------------------------------------------------------------
  // Leading runs

  /** The longest prefix of `s` made of decimal digits (`\d+` taken greedily). */
  function DigitPrefix(s: string): (r: string)
    ensures |r| <= |s| && r == s[..|r|] && AllDigits(r)
    ensures |r| < |s| ==> !IsDigit(s[|r|])
  {
    if s != [] && IsDigit(s[0]) then [s[0]] + DigitPrefix(s[1..]) else []
  }

  /** The longest prefix of `s` made of word or whitespace characters (`[\w\s]*` taken greedily). */
  function WordOrSpacePrefix(s: string): (r: string)
    ensures |r| <= |s| && r == s[..|r|]
    ensures forall i :: 0 <= i < |r| ==> IsWordChar(r[i]) || IsSpace(r[i])
    ensures |r| < |s| ==> !IsWordChar(s[|r|]) && !IsSpace(s[|r|])
  {
    if s != [] && (IsWordChar(s[0]) || IsSpace(s[0])) then [s[0]] + WordOrSpacePrefix(s[1..]) else []
  }

  /** The text `.*` matches: everything up to, and not including, the first newline. */
  function UpToNewline(s: string): (r: string)
    ensures |r| <= |s| && r == s[..|r|] && '\n' !in r
    ensures |r| < |s| ==> s[|r|] == '\n'
  {
    if s == [] || s[0] == '\n' then [] else [s[0]] + UpToNewline(s[1..])
  }

  // ---------------------------------------------------------------------------------------
  // Decimal numbers: Python's `int(digits)` and `str(n)`.

  function DigitValue(c: char): nat
    requires IsDigit(c)
  {
    (c as int) - ('0' as int)
  }

  function DigitChar(d: nat): (c: char)
    requires d < 10
    ensures IsDigit(c) && DigitValue(c) == d
  {
    ('0' as int + d) as char
  }

  /** `int(ds)` for a string of decimal digits; leading zeros are allowed, as in Python. */
  function DecValue(ds: string): nat
    requires AllDigits(ds)
  {
    if ds == [] then 0 else 10 * DecValue(ds[..|ds| - 1]) + DigitValue(ds[|ds| - 1])
  }

  /** `str(n)`: the decimal representation, without leading zeros. */
  function NatToDec(n: nat): (r: string)
    ensures r != [] && AllDigits(r)
    ensures r[0] == '0' ==> n == 0
  {
    if n < 10 then [DigitChar(n)] else NatToDec(n / 10) + [DigitChar(n % 10)]
  }

  /** `int(str(n)) == n`. */
  lemma {:induction false} DecRoundTrip(n: nat)
    ensures DecValue(NatToDec(n)) == n
  {
    if n >= 10 {
      DecRoundTrip(n / 10);
      var r := NatToDec(n);
      assert r[..|r| - 1] == NatToDec(n / 10);
    }
  }

  /** `str` is injective on naturals. */
  lemma NatToDecInjective(m: nat, n: nat)
    requires NatToDec(m) == NatToDec(n)
    ensures m == n
  {
    DecRoundTrip(m);
    DecRoundTrip(n);
  }
}
