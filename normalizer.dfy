/**
 * The text normaliser of backend/jarvis.py: `clean` (lower-case, trim, collapse whitespace runs)
 * and `remove_wake` (drop a leading wake word and the punctuation after it).
 */
module Normalizer {
  import opened Options
  import opened Text

  /** `ASSISTANT_NAME`, the wake word. */
  const WakeWord: string := "jarvis"

  /** The characters `remove_wake` strips after dropping the wake word: `strip(",.:- ")`. */
  const WakePunctuation: set<char> := {',', '.', ':', '-', ' '}

  // ---------------------------------------------------------------------------------------
  // The shape of normalised text

  /** The only whitespace character is the plain space, and no two spaces are adjacent. */
  ghost predicate PlainSpacing(s: string) {
    (forall i :: 0 <= i < |s| && IsSpace(s[i]) ==> s[i] == ' ')
    && (forall i, j :: 0 <= i < j < |s| && j == i + 1 ==> s[i] != ' ' || s[j] != ' ')
  }

  /** Text in the form `clean` produces: lower-case, plainly spaced, no space at either end. */
  ghost predicate IsClean(s: string) {
    NoUpper(s) && PlainSpacing(s) && (s != [] ==> s[0] != ' ' && s[|s| - 1] != ' ')
  }

  // ---------------------------------------------------------------------------------------
  // clean

  /** `re.sub(r"\s+", " ", s)`: every maximal run of whitespace becomes one space. */
  function Collapse(s: string): string
    decreases |s|
  {
    if s == [] then []
    else if IsSpace(s[0]) then " " + Collapse(TrimLeft(s, Whitespace))
    else [s[0]] + Collapse(s[1..])
  }

  /** `clean(text)`: `re.sub(r"\s+", " ", text.strip().lower())`. */
  function Clean(text: string): string {
    Collapse(Lower(Strip(text, Whitespace)))
  }

  /** Collapsing leaves only single plain spaces, keeps a blank at either end exactly when the
      input has whitespace there, and brings in no upper-case letter. */
  lemma CollapseShape(s: string)
    ensures var r := Collapse(s);
      && PlainSpacing(r)
      && (r == [] <==> s == [])
      && (r != [] ==> (r[0] == ' ' <==> IsSpace(s[0])))
      && (r != [] ==> (r[|r| - 1] == ' ' <==> IsSpace(s[|s| - 1])))
      && (NoUpper(s) ==> NoUpper(r))
  {
    CollapseSpacing(s);
    CollapseEnds(s);
    if NoUpper(s) {
      CollapseNoUpper(s);
    }
  }

  /** Collapsing keeps text empty or not, and a blank at either end exactly when the input has
      whitespace there. */
  lemma {:induction false} CollapseEnds(s: string)
    ensures var r := Collapse(s);
      && (r == [] <==> s == [])
      && (r != [] ==> (r[0] == ' ' <==> IsSpace(s[0])))
      && (r != [] ==> (r[|r| - 1] == ' ' <==> IsSpace(s[|s| - 1])))
    decreases |s|
  {
    if s != [] {
      if IsSpace(s[0]) {
        var t := TrimLeft(s, Whitespace);
        CollapseEnds(t);
        var c := Collapse(t);
        assert Collapse(s) == " " + c;
        if t == [] {
          assert IsSpace(s[|s| - 1]);
        } else {
          assert s[|s| - 1] == t[|t| - 1];
        }
      } else {
        var t := s[1..];
        CollapseEnds(t);
        var c := Collapse(t);
        assert Collapse(s) == [s[0]] + c;
        if t != [] {
          assert s[|s| - 1] == t[|t| - 1];
        }
      }
    }
  }

  /** A character in front of plainly spaced text keeps it plainly spaced when it is not
      whitespace, or a plain space not followed by one. */
  lemma SpacingCons(x: char, c: string)
    requires PlainSpacing(c) && (IsSpace(x) ==> x == ' ' && (c == [] || c[0] != ' '))
    ensures PlainSpacing([x] + c)
  {
    var r := [x] + c;
    forall i | 0 < i < |r| ensures r[i] == c[i - 1] {
    }
  }

  /** Collapsing leaves only single plain spaces. */
  lemma {:induction false} CollapseSpacing(s: string)
    ensures PlainSpacing(Collapse(s))
    decreases |s|
  {
    if s != [] {
      if IsSpace(s[0]) {
        var t := TrimLeft(s, Whitespace);
        CollapseSpacing(t);
        CollapseEnds(t);
        assert Collapse(s) == [' '] + Collapse(t);
        SpacingCons(' ', Collapse(t));
      } else {
        var t := s[1..];
        CollapseSpacing(t);
        assert Collapse(s) == [s[0]] + Collapse(t);
        SpacingCons(s[0], Collapse(t));
      }
    }
  }

  /** Collapsing brings in no upper-case letter. */
  lemma {:induction false} CollapseNoUpper(s: string)
    requires NoUpper(s)
    ensures NoUpper(Collapse(s))
    decreases |s|
  {
    if s != [] {
      if IsSpace(s[0]) {
        var t := TrimLeft(s, Whitespace);
        assert NoUpper(t) by {
          forall i | 0 <= i < |t| ensures !IsUpper(t[i]) {
            assert t[i] == s[|s| - |t| + i];
          }
        }
        CollapseNoUpper(t);
        assert Collapse(s) == [' '] + Collapse(t);
      } else {
        var t := s[1..];
        assert NoUpper(t) by {
          forall i | 0 <= i < |t| ensures !IsUpper(t[i]) {
            assert t[i] == s[i + 1];
          }
        }
        CollapseNoUpper(t);
        assert Collapse(s) == [s[0]] + Collapse(t);
      }
    }
  }

  /** The result of `clean` is always clean: lower-case, single plain spaces, no space at either end. */
  lemma CleanShape(text: string)
    ensures IsClean(Clean(text))
  {
    var s := Strip(text, Whitespace);
    var u := Lower(s);
    CollapseShape(u);
    if s != [] {
      LowerCharSpace(s[0]);
      LowerCharSpace(s[|s| - 1]);
    }
  }

  /** Collapsing changes nothing in text that is already plainly spaced. */
  lemma {:induction false} CollapsePlain(s: string)
    requires PlainSpacing(s)
    ensures Collapse(s) == s
    decreases |s|
  {
    if s != [] {
      var t := s[1..];
      assert PlainSpacing(t) by {
        forall i, j | 0 <= i < j < |t| && j == i + 1 ensures t[i] != ' ' || t[j] != ' ' {
          assert t[i] == s[i + 1] && t[j] == s[j + 1];
        }
      }
      CollapsePlain(t);
      assert s == [s[0]] + t;
      if IsSpace(s[0]) {
        assert s[0] == ' ';
        if |s| > 1 {
          assert s[1] != ' ';
          assert TrimLeft(t, Whitespace) == t;
        }
        assert TrimLeft(s, Whitespace) == TrimLeft(t, Whitespace) == t;
      }
    }
  }

  /** Clean text is a fixed point of `clean`, and only clean text is. */
  lemma CleanFixedPoint(s: string)
    ensures Clean(s) == s <==> IsClean(s)
  {
    CleanShape(s);
    if IsClean(s) {
      if s != [] {
        assert !IsSpace(s[0]) && !IsSpace(s[|s| - 1]);
        assert TrimLeft(s, Whitespace) == s;
        assert TrimRight(s, Whitespace) == s;
      }
      assert Strip(s, Whitespace) == s;
      assert Lower(s) == s;
      CollapsePlain(s);
    }
  }

  /** `clean` is idempotent. */
  lemma CleanIdempotent(text: string)
    ensures Clean(Clean(text)) == Clean(text)
  {
    CleanShape(text);
    CleanFixedPoint(Clean(text));
  }

  // ---------------------------------------------------------------------------------------
  // An independent definition of clean: `" ".join(text.lower().split())`

  /** The longest prefix of `s` without whitespace. */
  function TakeNonSpace(s: string): (r: string)
    ensures |r| <= |s| && r == s[..|r|]
    ensures forall i :: 0 <= i < |r| ==> !IsSpace(r[i])
    ensures |r| < |s| ==> IsSpace(s[|r|])
  {
    if s != [] && !IsSpace(s[0]) then [s[0]] + TakeNonSpace(s[1..]) else []
  }

  /** `s.split()`: the maximal whitespace-free pieces of `s`, in order. */
  function Fields(s: string): seq<string>
    decreases |s|
  {
    var t := TrimLeft(s, Whitespace);
    if t == [] then []
    else
      var w := TakeNonSpace(t);
      [w] + Fields(t[|w|..])
  }

  /** `" ".join(ws)`. */
  function JoinSpace(ws: seq<string>): string {
    if ws == [] then "" else if |ws| == 1 then ws[0] else ws[0] + " " + JoinSpace(ws[1..])
  }

  lemma {:induction false} TrimLeftIdempotent(s: string)
    ensures TrimLeft(TrimLeft(s, Whitespace), Whitespace) == TrimLeft(s, Whitespace)
  {
  }

  /** A whitespace-free prefix passes through `Collapse` unchanged. */
  lemma {:induction false} CollapseAfterWord(w: string, rest: string)
    requires forall i :: 0 <= i < |w| ==> !IsSpace(w[i])
    ensures Collapse(w + rest) == w + Collapse(rest)
  {
    if w == [] {
      assert w + rest == rest;
    } else {
      var s := w + rest;
      assert s[0] == w[0] && s[1..] == w[1..] + rest;
      CollapseAfterWord(w[1..], rest);
      assert w == [w[0]] + w[1..];
    }
  }

  /** The first field of text that starts with a non-blank character is its leading word. */
  lemma FieldsCons(u: string)
    requires u != [] && !IsSpace(u[0])
    ensures var w := TakeNonSpace(u);
      w != [] && u == w + u[|w|..] && Fields(u) == [w] + Fields(TrimLeft(u[|w|..], Whitespace))
  {
    assert TrimLeft(u, Whitespace) == u;
    var w := TakeNonSpace(u);
    assert u == w + u[|w|..];
    assert Fields(u) == [w] + Fields(u[|w|..]);
    FieldsTrimLeft(u[|w|..]);
  }

  lemma JoinSpaceCons(w: string, f: seq<string>)
    ensures JoinSpace([w] + f) == if f == [] then w else w + " " + JoinSpace(f)
  {
    var g := [w] + f;
    assert g[0] == w && g[1..] == f;
  }

  /** `s` ends in a whitespace character. */
  predicate EndsInSpace(s: string) {
    s != [] && IsSpace(s[|s| - 1])
  }

  /** Text that starts with a non-blank character splits into its leading word and the rest. */
  lemma SplitWord(u: string)
    requires u != [] && !IsSpace(u[0])
    ensures var w := TakeNonSpace(u); var rest := u[|w|..];
      && w != [] && u == w + rest && (rest != [] ==> IsSpace(rest[0]))
      && Collapse(u) == w + Collapse(rest)
      && Fields(u) == [w] + Fields(TrimLeft(rest, Whitespace))
      && (rest == [] ==> !EndsInSpace(u))
      && (rest != [] ==> (EndsInSpace(u) <==> EndsInSpace(rest)))
  {
    FieldsCons(u);
    var w := TakeNonSpace(u);
    var rest := u[|w|..];
    CollapseAfterWord(w, rest);
    if rest != [] {
      assert u[|u| - 1] == rest[|rest| - 1];
    }
  }

  /** Text that starts with whitespace collapses to one space before the rest. */
  lemma SplitBlank(rest: string)
    requires rest != [] && IsSpace(rest[0])
    ensures var r := TrimLeft(rest, Whitespace);
      && |r| < |rest| && (r == [] || !IsSpace(r[0]))
      && Collapse(rest) == " " + Collapse(r)
      && (EndsInSpace(rest) <==> r == [] || EndsInSpace(r))
  {
    var r := TrimLeft(rest, Whitespace);
    if r != [] {
      assert rest[|rest| - 1] == r[|r| - 1];
    }
  }

  /** For text with no whitespace at its start, `Collapse` joins its fields with single spaces,
      plus one trailing space when the text ends in whitespace. */
  lemma {:induction false} CollapseJoinsFields(u: string)
    requires u == [] || !IsSpace(u[0])
    ensures Collapse(u) == JoinSpace(Fields(u)) + (if EndsInSpace(u) then " " else "")
    decreases |u|
  {
    if u != [] {
      SplitWord(u);
      var w := TakeNonSpace(u);
      var rest := u[|w|..];
      if rest == [] {
        assert Fields(u) == [w];
        assert Collapse(u) == w + [];
      } else {
        SplitBlank(rest);
        var r := TrimLeft(rest, Whitespace);
        CollapseJoinsFields(r);
        JoinSpaceCons(w, Fields(r));
        FieldsEmpty(r);
        var e := if EndsInSpace(r) then " " else "";
        JoinTail(w, JoinSpace(Fields(r)), e, Fields(r) == [], JoinSpace([w] + Fields(r)));
      }
    }
  }

  /** The string algebra behind the last step of `CollapseJoinsFields`. */
  lemma JoinTail(w: string, j: string, e: string, none: bool, joined: string)
    requires joined == if none then w else w + " " + j
    requires none ==> j == [] && e == []
    ensures w + (" " + (j + e)) == joined + (if none then " " else e)
  {
    if !none {
      AppendAssoc(w, " ", j + e);
      AppendAssoc(w + " ", j, e);
    }
  }

  lemma FieldsEmpty(r: string)
    requires r == [] || !IsSpace(r[0])
    ensures Fields(r) == [] <==> r == []
  {
    if r != [] {
      assert TrimLeft(r, Whitespace) == r;
    }
  }

  lemma {:induction false} LowerTrimLeft(t: string)
    ensures Lower(TrimLeft(t, Whitespace)) == TrimLeft(Lower(t), Whitespace)
  {
    if t != [] {
      var l := Lower(t);
      assert l[0] == LowerChar(t[0]);
      LowerCharSpace(t[0]);
      assert l[1..] == Lower(t[1..]);
      LowerTrimLeft(t[1..]);
    }
  }

  lemma {:induction false} LowerTrimRight(t: string)
    ensures Lower(TrimRight(t, Whitespace)) == TrimRight(Lower(t), Whitespace)
  {
    if t != [] {
      var l := Lower(t);
      assert l[|t| - 1] == LowerChar(t[|t| - 1]);
      LowerCharSpace(t[|t| - 1]);
      assert l[..|t| - 1] == Lower(t[..|t| - 1]);
      LowerTrimRight(t[..|t| - 1]);
    }
  }

  lemma {:induction false} TakeNonSpaceAppend(x: string, q: string)
    requires q == [] || IsSpace(q[0])
    ensures TakeNonSpace(x + q) == TakeNonSpace(x)
  {
    if x != [] {
      assert (x + q)[1..] == x[1..] + q;
      TakeNonSpaceAppend(x[1..], q);
    }
  }

  /** Text that is all whitespace trims to nothing. */
  lemma {:induction false} TrimAllSpace(s: string)
    requires AllSpace(s)
    ensures TrimLeft(s, Whitespace) == []
  {
    if s != [] {
      TrimAllSpace(s[1..]);
    }
  }

  /** Trimming stops inside `x` when `x` has a non-blank character, so what follows is kept. */
  lemma {:induction false} TrimLeftAppend(x: string, q: string)
    requires TrimLeft(x, Whitespace) != []
    ensures TrimLeft(x + q, Whitespace) == TrimLeft(x, Whitespace) + q
  {
    assert x != [];
    var s := x + q;
    assert s[0] == x[0];
    if IsSpace(x[0]) {
      assert s[1..] == x[1..] + q;
      TrimLeftAppend(x[1..], q);
    }
  }

  /** Whitespace after the text does not change its fields. */
  lemma {:induction false} FieldsTrailingSpace(x: string, q: string)
    requires AllSpace(q)
    ensures Fields(x + q) == Fields(x)
    decreases |x|
  {
    var tx := TrimLeft(x, Whitespace);
    if tx == [] {
      assert Fields(x + q) == [] by {
        assert AllSpace(x + q);
        TrimAllSpace(x + q);
      }
    } else {
      var w := TakeNonSpace(tx);
      var rest := tx[|w|..];
      assert Fields(x) == [w] + Fields(rest);
      FieldsAppendBlank(x, q);
      FieldsTrailingSpace(rest, q);
    }
  }

  /** Whitespace after text with a word in it is carried into the rest after its first field. */
  lemma FieldsAppendBlank(x: string, q: string)
    requires TrimLeft(x, Whitespace) != [] && (q == [] || IsSpace(q[0]))
    ensures var tx := TrimLeft(x, Whitespace); var w := TakeNonSpace(tx);
      Fields(x + q) == [w] + Fields(tx[|w|..] + q)
  {
    var tx := TrimLeft(x, Whitespace);
    var w := TakeNonSpace(tx);
    var t := TrimLeft(x + q, Whitespace);
    TrimLeftAppend(x, q);
    assert t == tx + q;
    TakeNonSpaceAppend(tx, q);
    assert TakeNonSpace(t) == w;
    DropFromAppend(tx, q, |w|);
    assert Fields(x + q) == [w] + Fields(t[|w|..]);
  }

  /** Leading whitespace does not change the fields. */
  lemma FieldsTrimLeft(y: string)
    ensures Fields(TrimLeft(y, Whitespace)) == Fields(y)
  {
    TrimLeftIdempotent(y);
  }

  /** Trailing whitespace does not change the fields. */
  lemma FieldsTrimRight(l: string)
    ensures Fields(TrimRight(l, Whitespace)) == Fields(l)
  {
    var r := TrimRight(l, Whitespace);
    var q := l[|r|..];
    assert l == r + q;
    assert AllSpace(q) by {
      forall i | 0 <= i < |q| ensures IsSpace(q[i]) {
        assert q[i] == l[|r| + i];
      }
    }
    FieldsTrailingSpace(r, q);
  }

  /** Stripping whitespace from the ends does not change the fields. */
  lemma FieldsOfStrip(y: string)
    ensures Fields(Strip(y, Whitespace)) == Fields(y)
  {
    FieldsTrimLeft(y);
    FieldsTrimRight(TrimLeft(y, Whitespace));
  }

  /** `clean(text) == " ".join(text.lower().split())`: cleaning keeps every non-blank piece of the
      lower-cased text, in order, and separates them by exactly one space. */
  lemma CleanIsJoinedFields(text: string)
    ensures Clean(text) == JoinSpace(Fields(Lower(text)))
  {
    var y := Lower(text);
    var u := Strip(y, Whitespace);
    LowerStrip(text);
    assert Clean(text) == Collapse(u);
    assert u == [] || !IsSpace(u[0]) by {
      StripFirst(y, Whitespace);
    }
    assert !EndsInSpace(u) by {
      StripLast(y, Whitespace);
    }
    CollapseJoinsFields(u);
    FieldsOfStrip(y);
  }

  /** Lower-casing commutes with stripping whitespace. */
  lemma LowerStrip(text: string)
    ensures Lower(Strip(text, Whitespace)) == Strip(Lower(text), Whitespace)
  {
    LowerTrimLeft(text);
    LowerTrimRight(TrimLeft(text, Whitespace));
  }

  // ---------------------------------------------------------------------------------------
  // remove_wake

  /** `remove_wake(text)`: clean the text; when it starts with the wake word, replace the first
      occurrence of the wake word by nothing and strip `,.:- ` and then whitespace from both ends. */
  function RemoveWake(text: string): string {
    var t := Clean(text);
    if StartsWith(t, WakeWord) then
      Strip(Strip(ReplaceFirst(t, WakeWord, ""), WakePunctuation), Whitespace)
    else t
  }

  /** A slice of plainly spaced lower-case text is plainly spaced and lower-case. */
  lemma SliceKeepsSpacing(s: string, a: nat, b: nat)
    requires a <= b <= |s| && NoUpper(s) && PlainSpacing(s)
    ensures NoUpper(s[a..b]) && PlainSpacing(s[a..b])
  {
    var t := s[a..b];
    forall i, j | 0 <= i < j < |t| && j == i + 1 ensures t[i] != ' ' || t[j] != ' ' {
      assert t[i] == s[a + i] && t[j] == s[a + j];
    }
  }

  /** Replacing the first occurrence of a prefix removes that prefix. */
  lemma ReplacePrefix(t: string, pat: string)
    requires StartsWith(t, pat)
    ensures ReplaceFirst(t, pat, "") == t[|pat|..]
  {
    assert OccursAt(t, pat, 0);
  }

  /** Stripping `,.:- ` from plainly spaced lower-case text leaves clean text. */
  lemma StripPunctuationClean(x: string)
    requires NoUpper(x) && PlainSpacing(x)
    ensures IsClean(Strip(x, WakePunctuation))
  {
    StripPunctuationSpacing(x);
    StripPunctuationEnds(x);
  }

  lemma StripPunctuationSpacing(x: string)
    requires NoUpper(x) && PlainSpacing(x)
    ensures NoUpper(Strip(x, WakePunctuation)) && PlainSpacing(Strip(x, WakePunctuation))
  {
    var p := Strip(x, WakePunctuation);
    var a := |x| - |TrimLeft(x, WakePunctuation)|;
    StripSlice(x, WakePunctuation);
    SliceKeepsSpacing(x, a, a + |p|);
  }

  lemma StripPunctuationEnds(x: string)
    ensures var p := Strip(x, WakePunctuation);
      p != [] ==> p[0] != ' ' && p[|p| - 1] != ' '
  {
    assert ' ' in WakePunctuation;
    StripFirst(x, WakePunctuation);
    StripLast(x, WakePunctuation);
  }

  /** Clean text has no whitespace to strip. */
  lemma StripClean(p: string)
    requires IsClean(p)
    ensures Strip(p, Whitespace) == p
  {
    if p != [] {
      assert p[0] !in Whitespace && p[|p| - 1] !in Whitespace;
      assert TrimLeft(p, Whitespace) == p;
    }
  }

  /** The result of `remove_wake` is clean; when the cleaned text starts with the wake word,
      exactly that leading occurrence is removed and the final whitespace strip has nothing left
      to do; otherwise the cleaned text is returned as it is. */
  lemma RemoveWakeSpec(text: string)
    ensures IsClean(RemoveWake(text))
    ensures StartsWith(Clean(text), WakeWord) ==>
      RemoveWake(text) == Strip(Clean(text)[|WakeWord|..], WakePunctuation)
    ensures !StartsWith(Clean(text), WakeWord) ==> RemoveWake(text) == Clean(text)
  {
    var t := Clean(text);
    CleanShape(text);
    if StartsWith(t, WakeWord) {
      ReplacePrefix(t, WakeWord);
      SliceKeepsSpacing(t, |WakeWord|, |t|);
      StripPunctuationClean(t[|WakeWord|..]);
      StripClean(Strip(t[|WakeWord|..], WakePunctuation));
    }
  }

  /** Stripping `,.:- ` removes a separator made of those characters and nothing of `c`. */
  lemma StripSeparator(sep: string, c: string)
    requires forall i :: 0 <= i < |sep| ==> sep[i] in WakePunctuation
    requires c != [] ==> c[0] !in WakePunctuation && c[|c| - 1] !in WakePunctuation
    ensures Strip(sep + c, WakePunctuation) == c
  {
    TrimLeftAfter(sep, c, WakePunctuation);
    assert TrimLeft(c, WakePunctuation) == c;
    assert TrimRight(c, WakePunctuation) == c;
  }

  /** Dropping the wake word and a separator of punctuation from clean text gives the text back:
      `remove_wake("jarvis, " + c) == c` and its variants. */
  lemma RemoveWakeRoundTrip(sep: string, c: string)
    requires forall i :: 0 <= i < |sep| ==> sep[i] in WakePunctuation
    requires IsClean(WakeWord + sep + c)
    requires c != [] ==> c[0] !in WakePunctuation && c[|c| - 1] !in WakePunctuation
    ensures RemoveWake(WakeWord + sep + c) == c
  {
    var t := WakeWord + sep + c;
    CleanFixedPoint(t);
    PrefixParts(WakeWord, sep, c);
    RemoveWakeSpec(t);
    StripSeparator(sep, c);
  }

}
