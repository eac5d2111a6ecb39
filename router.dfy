/**
 * The intent router of `handle_command` (backend/jarvis.py): a command is classified by the
 * first rule, in a fixed order, whose test succeeds, and that rule captures what the reply
 * needs -- the weather city, the topic or query after a keyword, the reminder's minutes and
 * message. Also the pure half of `open_site_or_search` and `open_youtube_search`: which URL
 * is opened and what is said.
 *
 * The regular expressions of the source are written out by hand: `re.search` finds the
 * leftmost position where the pattern matches, `\b` is a word boundary over `[A-Za-z0-9_]`,
 * `\s` is `Text.Whitespace`, and `re.sub` with a `^` anchor changes at most the start.
 */
module Router {
  import opened Options
  import opened Text

  /** What a command asks for, with the fields its reply is built from. */
  datatype Intent =
    | NoCommand
    | Greet
    | Wellbeing
    | Shutdown
    | Time
    | Date
    | Weather(city: Option<string>)
    | Wiki(topic: string)
    | Browse(query: string)
    | Play(query: string)
    | Note(text: string)
    | ListNotes
    | Remind(minutes: nat, message: string)
    | Joke
    | Fallback

  // ---------------------------------------------------------------------------------------
  // Keyword tables

  const Greetings: seq<string> := ["hello", "hi", "hey"]
  const ExitWords: set<string> := {"exit", "quit", "stop", "goodbye", "bye"}
  const WikiPrefixes: seq<string> := ["who is", "what is", "tell me about", "define", "explain"]
  const OpenKeywords: seq<string> := ["open", "go to"]
  const SearchKeywords: seq<string> := ["search", "google"]
  const PlayKeywords: seq<string> := ["play", "youtube"]
  const NoteKeywords: seq<string> := ["note", "remember"]

  /** The keywords each followed by one space, as in the tuple `("open ", "go to ")`. */
  function Spaced(ks: seq<string>): (r: seq<string>)
    ensures |r| == |ks| && forall j :: 0 <= j < |ks| ==> r[j] == ks[j] + " "
  {
    if ks == [] then [] else [ks[0] + " "] + Spaced(ks[1..])
  }

  /** No keyword of `ks` begins another one. */
  predicate PrefixFree(ks: seq<string>) {
    forall i, j :: 0 <= i < |ks| && 0 <= j < |ks| && i != j ==> !StartsWith(ks[j], ks[i])
  }

  // ---------------------------------------------------------------------------------------
  // The tests

  /** `re.search(r"\b(hello|hi|hey)\b", cmd)` succeeds. */
  predicate HasGreeting(cmd: string) {
    FindWordFrom(cmd, "hello", 0) || FindWordFrom(cmd, "hi", 0) || FindWordFrom(cmd, "hey", 0)
  }

  /** `k` begins `cmd` and a whitespace character follows it, so `^k\s+` matches. */
  predicate KeywordThenSpace(cmd: string, k: string) {
    StartsWith(cmd, k) && |k| < |cmd| && IsSpace(cmd[|k|])
  }

  /** The first keyword of `ks`, from index `k` on, that begins `cmd` and is followed by
      whitespace: the alternative of `^(k1|k2|...)\s+` that matches. */
  function FirstKeyword(cmd: string, ks: seq<string>, k: nat): (r: Option<nat>)
    requires k <= |ks|
    ensures r.Some? ==> k <= r.value < |ks| && KeywordThenSpace(cmd, ks[r.value])
    ensures forall i :: k <= i < |ks| && (r.None? || i < r.value) ==> !KeywordThenSpace(cmd, ks[i])
    decreases |ks| - k
  {
    if k == |ks| then None
    else if KeywordThenSpace(cmd, ks[k]) then Some(k)
    else FirstKeyword(cmd, ks, k + 1)
  }

  /** `re.sub(r"^(k1|k2|...)\s+", "", cmd)`: the first keyword that matches is removed with all
      the whitespace after it; without one, `cmd` is unchanged. */
  function DropKeyword(cmd: string, ks: seq<string>): (r: string)
    ensures |r| <= |cmd| && r == cmd[|cmd| - |r|..]
    ensures FirstKeyword(cmd, ks, 0).None? ==> r == cmd
  {
    match FirstKeyword(cmd, ks, 0)
    case None => cmd
    case Some(j) => TrimLeft(cmd[|ks[j]|..], Whitespace)
  }

  /** The city of `weather(?: in (?P<city>[\w\s]+))?` once `rest` is what follows the leftmost
      "weather": the optional group is taken when " in " and at least one word or whitespace
      character follow, and the greedy run it captures is then stripped. */
  function CityAfter(rest: string): (city: Option<string>)
    ensures city.Some? <==> StartsWith(rest, " in ") && |rest| > 4 && (IsWordChar(rest[4]) || IsSpace(rest[4]))
  {
    var run := if StartsWith(rest, " in ") then WordOrSpacePrefix(rest[4..]) else [];
    if run == [] then None else Some(Strip(run, Whitespace))
  }

  /** The city captured by the weather pattern, searched for in `cmd`. */
  function WeatherCity(cmd: string): Option<string> {
    match IndexOf(cmd, "weather")
    case None => None
    case Some(k) => CityAfter(cmd[k + 7..])
  }

  // ---------------------------------------------------------------------------------------
  // `remind me in (\d+)\s*(minutes|minute|min)\s*(.*)`

  const RemindPhrase: string := "remind me in "
  const NoMessage: string := "No message"

  datatype Request = Request(minutes: nat, message: string)

  /** How much of `s` the unit group `(minutes|minute|min)` takes, the alternatives tried in
      that order; 0 when none of them begins `s`. */
  function UnitLength(s: string): (n: nat)
    ensures n == 0 || n == 3 || n == 6 || n == 7
    ensures n != 0 <==> StartsWith(s, "min")
    ensures n <= |s| && (n != 0 ==> s[..n] in ["minutes", "minute", "min"])
    ensures StartsWith(s, "minutes") ==> n == 7
    ensures StartsWith(s, "minute") ==> n >= 6
  {
    if StartsWith(s, "minutes") then 7
    else if StartsWith(s, "minute") then 6
    else if StartsWith(s, "min") then 3
    else 0
  }

  /** The message `(.*)` yields once the unit is matched: `\s*` skips all whitespace, newlines
      included, `.*` keeps the rest of that line, and the stripped result or "No message" is
      used. */
  function MessageOf(after: string): string {
    var text := Strip(UpToNewline(TrimLeft(after, Whitespace)), Whitespace);
    if text == [] then NoMessage else text
  }

  /** The match of `(\d+)\s*(minutes|minute|min)\s*(.*)` at the start of `rest`. `\d+` takes the
      whole digit run and `\s*` the whole whitespace run after it: giving back a digit or a
      whitespace character leaves a digit or whitespace where the unit must begin, so the
      pattern matches exactly when "min" follows those runs. */
  function RequestAfter(rest: string): (r: Option<Request>)
    ensures r.Some? ==> DigitPrefix(rest) != []
  {
    var digits := DigitPrefix(rest);
    var unit := TrimLeft(rest[|digits|..], Whitespace);
    var n := UnitLength(unit);
    if digits == [] || n == 0 then None
    else Some(Request(DecValue(digits), MessageOf(unit[n..])))
  }

  /** The match of the reminder pattern at index `i` of `cmd`, if there is one. */
  function RemindAt(cmd: string, i: nat): (r: Option<Request>)
    ensures r.Some? ==> OccursAt(cmd, RemindPhrase, i)
  {
    if OccursAt(cmd, RemindPhrase, i) then RequestAfter(cmd[i + |RemindPhrase|..]) else None
  }

  /** The leftmost index at or after `k` where the reminder pattern matches. */
  function RemindFrom(cmd: string, k: nat): (r: Option<nat>)
    requires k <= |cmd|
    ensures r.Some? ==> k <= r.value <= |cmd| && RemindAt(cmd, r.value).Some?
    ensures forall i :: k <= i <= |cmd| && (r.None? || i < r.value) ==> RemindAt(cmd, i).None?
    decreases |cmd| - k
  {
    if RemindAt(cmd, k).Some? then Some(k)
    else if k == |cmd| then None
    else RemindFrom(cmd, k + 1)
  }

  /** `re.search` of the reminder pattern, with the minutes and the stripped message (or
      "No message") it yields. */
  function ParseRemind(cmd: string): (r: Option<Request>)
    ensures r.Some? <==> exists i :: RemindAt(cmd, i).Some?
  {
    match RemindFrom(cmd, 0)
    case None =>
      assert forall i: nat :: RemindAt(cmd, i).Some? ==> i <= |cmd| by {
        forall i: nat | RemindAt(cmd, i).Some? ensures i <= |cmd| {
          assert OccursAt(cmd, RemindPhrase, i);
        }
      }
      None
    case Some(i) => RemindAt(cmd, i)
  }

  // ---------------------------------------------------------------------------------------
  // The rules and their order

  datatype Rule =
    | GreetRule | WellbeingRule | ExitRule | TimeRule | DateRule | WeatherRule | WikiRule
    | OpenRule | SearchRule | PlayRule | NoteRule | ListNotesRule | RemindRule | JokeRule

  /** The order in which `handle_command` tries its rules. */
  const Rules: seq<Rule> := [GreetRule, WellbeingRule, ExitRule, TimeRule, DateRule, WeatherRule,
    WikiRule, OpenRule, SearchRule, PlayRule, NoteRule, ListNotesRule, RemindRule, JokeRule]

  /** The test of each rule. */
  predicate Fires(r: Rule, cmd: string) {
    match r
    case GreetRule => HasGreeting(cmd)
    case WellbeingRule => Contains(cmd, "how are you")
    case ExitRule => cmd in ExitWords
    case TimeRule => Contains(cmd, "time")
    case DateRule => Contains(cmd, "date") || Contains(cmd, "day")
    case WeatherRule => Contains(cmd, "weather")
    case WikiRule => StartsWithAny(cmd, WikiPrefixes)
    case OpenRule => StartsWithAny(cmd, Spaced(OpenKeywords))
    case SearchRule => StartsWithAny(cmd, Spaced(SearchKeywords))
    case PlayRule => StartsWithAny(cmd, Spaced(PlayKeywords))
    case NoteRule => StartsWithAny(cmd, Spaced(NoteKeywords))
    case ListNotesRule => Contains(cmd, "list notes") || Contains(cmd, "show notes")
    case RemindRule => ParseRemind(cmd).Some?
    case JokeRule => Contains(cmd, "joke")
  }

  /** The intent a rule produces, with what it captures from `cmd`. */
  function Build(r: Rule, cmd: string): Intent
    requires Fires(r, cmd)
  {
    match r
    case GreetRule => Greet
    case WellbeingRule => Wellbeing
    case ExitRule => Shutdown
    case TimeRule => Time
    case DateRule => Date
    case WeatherRule => Weather(WeatherCity(cmd))
    case WikiRule => Wiki(Strip(DropKeyword(cmd, WikiPrefixes), Whitespace))
    case OpenRule => Browse(DropKeyword(cmd, OpenKeywords))
    case SearchRule => Browse(DropKeyword(cmd, SearchKeywords))
    case PlayRule => Play(DropKeyword(cmd, PlayKeywords))
    case NoteRule => Note(DropKeyword(cmd, NoteKeywords))
    case ListNotesRule => ListNotes
    case RemindRule => Remind(ParseRemind(cmd).value.minutes, ParseRemind(cmd).value.message)
    case JokeRule => Joke
  }

  /** `handle_command`'s chain of early returns: an empty command, then the rules one after the
      other, then the fallback. */
  function Route(cmd: string): Intent {
    if cmd == [] then NoCommand
    else if Fires(GreetRule, cmd) then Build(GreetRule, cmd)
    else if Fires(WellbeingRule, cmd) then Build(WellbeingRule, cmd)
    else if Fires(ExitRule, cmd) then Build(ExitRule, cmd)
    else if Fires(TimeRule, cmd) then Build(TimeRule, cmd)
    else if Fires(DateRule, cmd) then Build(DateRule, cmd)
    else if Fires(WeatherRule, cmd) then Build(WeatherRule, cmd)
    else if Fires(WikiRule, cmd) then Build(WikiRule, cmd)
    else if Fires(OpenRule, cmd) then Build(OpenRule, cmd)
    else if Fires(SearchRule, cmd) then Build(SearchRule, cmd)
    else if Fires(PlayRule, cmd) then Build(PlayRule, cmd)
    else if Fires(NoteRule, cmd) then Build(NoteRule, cmd)
    else if Fires(ListNotesRule, cmd) then Build(ListNotesRule, cmd)
    else if Fires(RemindRule, cmd) then Build(RemindRule, cmd)
    else if Fires(JokeRule, cmd) then Build(JokeRule, cmd)
    else Fallback
  }

  /** The first rule, from index `k` of `Rules` on, that fires on `cmd`. */
  function FirstFiring(cmd: string, k: nat): (r: Option<nat>)
    requires k <= |Rules|
    ensures r.Some? ==> k <= r.value < |Rules| && Fires(Rules[r.value], cmd)
    ensures forall i :: k <= i < |Rules| && (r.None? || i < r.value) ==> !Fires(Rules[i], cmd)
    decreases |Rules| - k
  {
    if k == |Rules| then None
    else if Fires(Rules[k], cmd) then Some(k)
    else FirstFiring(cmd, k + 1)
  }

  /** The router read off the rule table: the first rule that fires decides. */
  function Classify(cmd: string): Intent {
    if cmd == [] then NoCommand
    else match FirstFiring(cmd, 0)
      case None => Fallback
      case Some(j) => Build(Rules[j], cmd)
  }

  /** The chain of early returns is the first-match-wins reading of the rule table. */
  lemma RouteIsFirstMatch(cmd: string)
    ensures Route(cmd) == Classify(cmd)
  {
    if cmd != [] {
      var r := FirstFiring(cmd, 0);
      if r.Some? {
        var j := r.value;
        assert forall i :: 0 <= i < j ==> !Fires(Rules[i], cmd);
      }
    }
  }

  /** Only the empty command gets no reply from a rule, and the fallback comes exactly when no
      rule fires. */
  lemma RouteEnds(cmd: string)
    ensures Route(cmd) == NoCommand <==> cmd == []
    ensures Route(cmd) == Fallback <==> cmd != [] && forall i :: 0 <= i < |Rules| ==> !Fires(Rules[i], cmd)
  {
    RouteIsFirstMatch(cmd);
    if cmd != [] && FirstFiring(cmd, 0).Some? {
      var j := FirstFiring(cmd, 0).value;
      assert Build(Rules[j], cmd) != Fallback && Build(Rules[j], cmd) != NoCommand;
    }
  }

  /** A command mentioning "time", "date" or "day" never reaches the weather rule or any rule
      after it: "weather today" gets the date. */
  lemma ClockWordsShadowLaterRules(cmd: string)
    requires Contains(cmd, "time") || Contains(cmd, "date") || Contains(cmd, "day")
    ensures Route(cmd) in {Greet, Wellbeing, Shutdown, Time, Date}
  {
  }

  lemma WeatherTodayIsDate(s: string)
    requires s == "weather today"
    ensures Route(s) == Date
  {
    assert OccursAt(s, "day", 10);
    forall w, i | w in ["hello", "hi", "hey", "how are you", "time"]
      ensures !OccursAt(s, w, i)
    {
      WeatherTodayLacks(s, w, i);
    }
    assert !Fires(GreetRule, s);
    assert !Fires(WellbeingRule, s);
    LongIsNoExitWord(s);
    assert !Fires(TimeRule, s);
    assert Fires(DateRule, s);
  }

  /** Every exit word is shorter than eight characters. */
  lemma LongIsNoExitWord(s: string)
    requires |s| >= 8
    ensures s !in ExitWords
  {
  }

  /** None of the words tested before the date rule occurs in "weather today". */
  lemma WeatherTodayLacks(s: string, w: string, i: int)
    requires s == "weather today"
    requires w == "hello" || w == "hi" || w == "hey" || w == "how are you" || w == "time"
    ensures !OccursAt(s, w, i)
  {
    assert s[0] == 'w' && s[1] == 'e' && s[2] == 'a' && s[3] == 't' && s[4] == 'h' && s[5] == 'e';
    assert s[6] == 'r' && s[7] == ' ' && s[8] == 't' && s[9] == 'o' && s[10] == 'd' && s[11] == 'a';
    assert s[12] == 'y';
  }

  // ---------------------------------------------------------------------------------------
  // Properties of the captures

  /** `re.search(r"\b(hello|hi|hey)\b", cmd)`: one of the greetings occurs as a whole word. */
  lemma GreetingSpec(cmd: string)
    ensures HasGreeting(cmd) <==> exists w, i :: w in Greetings && WholeWordAt(cmd, w, i)
  {
    if exists w, i :: w in Greetings && WholeWordAt(cmd, w, i) {
      var w, i :| w in Greetings && WholeWordAt(cmd, w, i);
      assert FindWordFrom(cmd, w, 0);
    }
  }

  /** Two prefixes of the same string: the shorter begins the longer. */
  lemma PrefixOfBoth(s: string, a: string, b: string)
    requires StartsWith(s, a) && StartsWith(s, b) && |a| <= |b|
    ensures StartsWith(b, a)
  {
    assert b[..|a|] == s[..|b|][..|a|];
  }

  /** The keyword tables of the router are prefix-free. */
  lemma KeywordTablesPrefixFree()
    ensures PrefixFree(WikiPrefixes) && PrefixFree(OpenKeywords) && PrefixFree(SearchKeywords)
    ensures PrefixFree(PlayKeywords) && PrefixFree(NoteKeywords)
  {
    FirstCharsDiffer(OpenKeywords);
    FirstCharsDiffer(SearchKeywords);
    FirstCharsDiffer(PlayKeywords);
    FirstCharsDiffer(NoteKeywords);
    var w := WikiPrefixes;
    forall i, j | 0 <= i < |w| && 0 <= j < |w| && i != j ensures !StartsWith(w[j], w[i]) {
      if w[i][0] != w[j][0] {
        DifferAt(w[i], w[j], 0);
      } else {
        DifferAt(w[i], w[j], 2);
      }
    }
  }

  /** A table of two keywords with different first characters is prefix-free. */
  lemma FirstCharsDiffer(ks: seq<string>)
    requires |ks| == 2 && ks[0] != [] && ks[1] != [] && ks[0][0] != ks[1][0]
    ensures PrefixFree(ks)
  {
    DifferAt(ks[0], ks[1], 0);
  }

  /** Two strings that differ at index `k` begin neither one the other. */
  lemma DifferAt(a: string, b: string, k: nat)
    requires k < |a| && k < |b| && a[k] != b[k]
    ensures !StartsWith(a, b) && !StartsWith(b, a)
  {
  }

  /** Removing a keyword of a prefix-free table, and the whitespace after it, from
      `k + sep + q` gives back `q`. */
  lemma DropKeywordInverse(ks: seq<string>, j: nat, sep: string, q: string)
    requires PrefixFree(ks) && j < |ks|
    requires sep != [] && AllSpace(sep) && (q == [] || !IsSpace(q[0]))
    ensures DropKeyword(ks[j] + sep + q, ks) == q
  {
    var cmd := ks[j] + sep + q;
    PrefixParts(ks[j], sep, q);
    assert cmd[|ks[j]|] == sep[0];
    forall i | 0 <= i < j ensures !KeywordThenSpace(cmd, ks[i]) {
      if StartsWith(cmd, ks[i]) {
        if |ks[i]| <= |ks[j]| {
          PrefixOfBoth(cmd, ks[i], ks[j]);
        } else {
          PrefixOfBoth(cmd, ks[j], ks[i]);
        }
      }
    }
    assert FirstKeyword(cmd, ks, 0) == Some(j);
    TrimLeftAfter(sep, q, Whitespace);
  }

  /** What the keyword strip removes: the keyword `FirstKeyword` picks and then the whole
      whitespace run after it, which is never empty, so the result never starts with whitespace. */
  lemma DropKeywordCut(cmd: string, ks: seq<string>)
    requires FirstKeyword(cmd, ks, 0).Some?
    ensures var k, q := ks[FirstKeyword(cmd, ks, 0).value], DropKeyword(cmd, ks);
      |k| < |cmd| - |q| && AllSpace(cmd[|k|..|cmd| - |q|]) && (q == [] || !IsSpace(q[0]))
  {
    var k := ks[FirstKeyword(cmd, ks, 0).value];
    var rest := cmd[|k|..];
    var q := TrimLeft(rest, Whitespace);
    assert rest[0] in Whitespace;
    assert cmd[|k|..|cmd| - |q|] == rest[..|rest| - |q|];
  }

  /** `cmd.startswith(("open ", "go to "))` and its siblings: some keyword is followed by
      whitespace, so the strip removes one. */
  lemma SpacedKeyword(cmd: string, ks: seq<string>)
    requires StartsWithAny(cmd, Spaced(ks))
    ensures FirstKeyword(cmd, ks, 0).Some?
  {
    var j :| 0 <= j < |ks| && StartsWith(cmd, Spaced(ks)[j]);
    var k := ks[j];
    var p := cmd[..|k| + 1];
    assert p == k + " ";
    assert cmd[..|k|] == p[..|k|] == k;
    assert cmd[|k|] == p[|k|] == ' ';
    assert KeywordThenSpace(cmd, ks[j]);
  }

  /** The captured city is made of word and whitespace characters and has no whitespace at
      either end. */
  lemma CityShape(rest: string)
    requires CityAfter(rest).Some?
    ensures var c := CityAfter(rest).value;
      (forall i :: 0 <= i < |c| ==> IsWordChar(c[i]) || IsSpace(c[i]))
      && (c != [] ==> !IsSpace(c[0]) && !IsSpace(c[|c| - 1]))
  {
    var run := WordOrSpacePrefix(rest[4..]);
    var c := Strip(run, Whitespace);
    StripSpec(run, Whitespace);
    var a := |run| - |TrimLeft(run, Whitespace)|;
    forall i | 0 <= i < |c| ensures IsWordChar(c[i]) || IsSpace(c[i]) {
      assert c[i] == run[a + i];
    }
  }

  /** A city written after "weather in ", with any whitespace around it and ended by any
      other character, is captured without that whitespace. */
  lemma {:induction false} CityRoundTrip(w1: string, c: string, w2: string, t: string)
    requires AllSpace(w1) && AllSpace(w2)
    requires c != [] && !IsSpace(c[0]) && !IsSpace(c[|c| - 1])
    requires forall i :: 0 <= i < |c| ==> IsWordChar(c[i]) || IsSpace(c[i])
    requires t == [] || (!IsWordChar(t[0]) && !IsSpace(t[0]))
    ensures CityAfter(" in " + w1 + c + w2 + t) == Some(c)
  {
    var run := w1 + c + w2;
    var rest := " in " + w1 + c + w2 + t;
    assert rest == " in " + (run + t);
    assert StartsWith(rest, " in ") && rest[4..] == run + t;
    PaddedCityRun(w1, c, w2);
    WordRunOf(run, t);
    assert WordOrSpacePrefix(rest[4..]) == run;
    PaddedCityStrip(w1, c, w2);
  }

  /** A city padded with whitespace is still made of word and whitespace characters. */
  lemma PaddedCityRun(w1: string, c: string, w2: string)
    requires AllSpace(w1) && AllSpace(w2)
    requires forall i :: 0 <= i < |c| ==> IsWordChar(c[i]) || IsSpace(c[i])
    ensures var run := w1 + c + w2;
      forall i :: 0 <= i < |run| ==> IsWordChar(run[i]) || IsSpace(run[i])
  {
    var run := w1 + c + w2;
    forall i | 0 <= i < |run| ensures IsWordChar(run[i]) || IsSpace(run[i]) {
      if i < |w1| {
        assert run[i] == w1[i];
      } else if i < |w1| + |c| {
        assert run[i] == c[i - |w1|];
      } else {
        assert run[i] == w2[i - |w1| - |c|];
      }
    }
  }

  /** `strip()` removes exactly the whitespace padding of a city. */
  lemma PaddedCityStrip(w1: string, c: string, w2: string)
    requires AllSpace(w1) && AllSpace(w2)
    requires c != [] && !IsSpace(c[0]) && !IsSpace(c[|c| - 1])
    ensures Strip(w1 + c + w2, Whitespace) == c
  {
    assert w1 + c + w2 == w1 + (c + w2);
    TrimLeftAfter(w1, c + w2, Whitespace);
    assert (c + w2)[0] == c[0];
    assert TrimLeft(c + w2, Whitespace) == c + w2;
    TrimRightBefore(c, w2, Whitespace);
  }

  /** The word-or-space run at the start of `c + t` is `c` when `t` starts with another
      character. */
  lemma {:induction false} WordRunOf(c: string, t: string)
    requires forall i :: 0 <= i < |c| ==> IsWordChar(c[i]) || IsSpace(c[i])
    requires t == [] || (!IsWordChar(t[0]) && !IsSpace(t[0]))
    ensures WordOrSpacePrefix(c + t) == c
  {
    assert (c + t)[..|c|] == c;
  }

  /** The city is looked for after the leftmost "weather" only. */
  lemma WeatherCityAfterFirst(p: string, rest: string)
    requires forall i :: 0 <= i < |p| ==> !OccursAt(p + "weather", "weather", i)
    ensures WeatherCity(p + "weather" + rest) == CityAfter(rest)
  {
    var cmd := p + "weather" + rest;
    PrefixParts(p, "weather", rest);
    assert cmd[..|p| + 7] == p + "weather";
    assert OccursAt(cmd, "weather", |p|);
    forall i | 0 <= i < |p| ensures !OccursAt(cmd, "weather", i) {
      assert !OccursAt(p + "weather", "weather", i);
      assert cmd[i..i + 7] == cmd[..|p| + 7][i..i + 7];
    }
    assert IndexOf(cmd, "weather") == Some(|p|);
    assert cmd[|p| + 7..] == rest;
  }

  /** A reminder message is never empty, sits on one line and has no whitespace at either end. */
  lemma MessageShape(after: string)
    ensures var m := MessageOf(after);
      m != [] && '\n' !in m && !IsSpace(m[0]) && !IsSpace(m[|m| - 1])
  {
    var line := UpToNewline(TrimLeft(after, Whitespace));
    var text := Strip(line, Whitespace);
    StripSpec(line, Whitespace);
    if text != [] {
      var a := |line| - |TrimLeft(line, Whitespace)|;
      forall k | 0 <= k < |text| ensures text[k] != '\n' {
        assert text[k] == line[a + k];
      }
    } else {
      assert NoMessage[0] == 'N' && NoMessage[|NoMessage| - 1] == 'e';
      assert forall k :: 0 <= k < |NoMessage| ==> NoMessage[k] != '\n';
    }
  }

  /** A message parsed after the reminder phrase has that shape. */
  lemma RequestMessageShape(rest: string)
    requires RequestAfter(rest).Some?
    ensures var m := RequestAfter(rest).value.message;
      m != [] && '\n' !in m && !IsSpace(m[0]) && !IsSpace(m[|m| - 1])
  {
    var unit := TrimLeft(rest[|DigitPrefix(rest)|..], Whitespace);
    var n := UnitLength(unit);
    assert RequestAfter(rest).value.message == MessageOf(unit[n..]);
    MessageShape(unit[n..]);
  }

  /** Whatever command it comes from, a parsed reminder message has that shape. */
  lemma RemindMessageShape(cmd: string)
    requires ParseRemind(cmd).Some?
    ensures var m := ParseRemind(cmd).value.message;
      m != [] && '\n' !in m && !IsSpace(m[0]) && !IsSpace(m[|m| - 1])
  {
    var i := RemindFrom(cmd, 0).value;
    var rest := cmd[i + |RemindPhrase|..];
    assert ParseRemind(cmd) == RemindAt(cmd, i) == RequestAfter(rest);
    RequestMessageShape(rest);
  }

  /** A reminder intent carries what the reminder pattern parsed. */
  lemma RemindIntent(cmd: string)
    requires Route(cmd).Remind?
    ensures ParseRemind(cmd) == Some(Request(Route(cmd).minutes, Route(cmd).message))
  {
    RouteIsFirstMatch(cmd);
    var r := Rules[FirstFiring(cmd, 0).value];
    assert Fires(r, cmd) && Route(cmd) == Build(r, cmd);
  }

  /** A unit spelling followed by whitespace or nothing is taken whole. */
  lemma UnitOf(unit: string, tail: string)
    requires unit == "minutes" || unit == "minute" || unit == "min"
    requires tail == [] || IsSpace(tail[0])
    ensures UnitLength(unit + tail) == |unit|
  {
    var s := unit + tail;
    assert s[..|unit|] == unit;
    if |tail| > 0 {
      assert s[|unit|] == tail[0];
    }
  }

  /** The digit run at the start of `ds + t` is `ds` when `t` does not start with a digit. */
  lemma {:induction false} DigitRunOf(ds: string, t: string)
    requires AllDigits(ds) && (t == [] || !IsDigit(t[0]))
    ensures DigitPrefix(ds + t) == ds
  {
    assert (ds + t)[..|ds|] == ds;
  }

  /** After the phrase, "<n><ws><unit><tail>" matches with `n` minutes and the message of
      `tail`. */
  lemma RequestParts(n: nat, sep: string, unit: string, tail: string)
    requires unit != [] && unit[0] == 'm' && UnitLength(unit + tail) == |unit|
    requires AllSpace(sep)
    ensures RequestAfter(NatToDec(n) + (sep + (unit + tail))) == Some(Request(n, MessageOf(tail)))
  {
    var ds := NatToDec(n);
    var u := unit + tail;
    var t := sep + u;
    assert t == [] || !IsDigit(t[0]) by {
      if sep != [] {
        assert t[0] == sep[0];
      } else {
        assert t[0] == unit[0];
      }
    }
    DigitRunOf(ds, t);
    Halves(ds, t);
    TrimLeftAfter(sep, u, Whitespace);
    assert u[0] == unit[0];
    Halves(unit, tail);
    DecRoundTrip(n);
  }

  /** A command starting with the phrase is parsed from there, whatever follows. */
  lemma RemindAtStart(rest: string)
    requires RequestAfter(rest).Some?
    ensures ParseRemind(RemindPhrase + rest) == RequestAfter(rest)
  {
    var cmd := RemindPhrase + rest;
    Halves(RemindPhrase, rest);
    assert OccursAt(cmd, RemindPhrase, 0);
    assert RemindFrom(cmd, 0) == Some(0);
  }

  /** A reminder command written as "remind me in <n><ws><unit><tail>" parses to `n` minutes and
      to the message of `tail`. */
  lemma RemindParts(n: nat, sep: string, unit: string, tail: string)
    requires unit == "minutes" || unit == "minute" || unit == "min"
    requires AllSpace(sep) && (tail == [] || IsSpace(tail[0]))
    ensures ParseRemind(RemindPhrase + NatToDec(n) + sep + unit + tail) == Some(Request(n, MessageOf(tail)))
  {
    var rest := NatToDec(n) + (sep + (unit + tail));
    UnitOf(unit, tail);
    RequestParts(n, sep, unit, tail);
    RemindAtStart(rest);
    RightGrouped(RemindPhrase, NatToDec(n), sep, unit, tail);
  }

  /** A message on one line, with no whitespace at its ends, comes back as it is. */
  lemma MessageRoundTrip(gap: string, m: string)
    requires AllSpace(gap)
    requires m != [] && '\n' !in m && !IsSpace(m[0]) && !IsSpace(m[|m| - 1])
    ensures MessageOf(gap + m) == m
  {
    TrimLeftAfter(gap, m, Whitespace);
    assert TrimRight(m, Whitespace) == m;
  }

  /** "remind me in <n> minutes <m>" gives back `n` and `m`, for any of the three unit spellings
      and 0 included. */
  lemma RemindRoundTrip(n: nat, sep: string, unit: string, gap: string, m: string)
    requires unit == "minutes" || unit == "minute" || unit == "min"
    requires AllSpace(sep) && gap != [] && AllSpace(gap)
    requires m != [] && '\n' !in m && !IsSpace(m[0]) && !IsSpace(m[|m| - 1])
    ensures ParseRemind(RemindPhrase + NatToDec(n) + sep + unit + gap + m) == Some(Request(n, m))
  {
    assert (gap + m)[0] == gap[0];
    RemindParts(n, sep, unit, gap + m);
    AppendAssoc(RemindPhrase + NatToDec(n) + sep + unit, gap, m);
    MessageRoundTrip(gap, m);
  }

  /** Without anything after the unit but whitespace, the message is "No message". */
  lemma RemindWithoutMessage(n: nat, sep: string, unit: string, gap: string)
    requires unit == "minutes" || unit == "minute" || unit == "min"
    requires AllSpace(sep) && AllSpace(gap)
    ensures ParseRemind(RemindPhrase + NatToDec(n) + sep + unit + gap) == Some(Request(n, NoMessage))
  {
    RemindParts(n, sep, unit, gap);
    MessageOfBlank(gap);
  }

  /** Nothing but whitespace leaves no message. */
  lemma MessageOfBlank(gap: string)
    requires AllSpace(gap)
    ensures MessageOf(gap) == NoMessage
  {
    TrimLeftAfter(gap, [], Whitespace);
    assert gap + [] == gap;
  }

  // ---------------------------------------------------------------------------------------
  // Sites: `open_site_or_search` and `open_youtube_search`

  datatype Site = Site(key: string, url: string)

  /** The site table, in the order the loop visits it. */
  const Sites: seq<Site> := [
    Site("youtube", "https://www.youtube.com"),
    Site("gmail", "https://mail.google.com"),
    Site("google", "https://www.google.com"),
    Site("github", "https://github.com"),
    Site("stackoverflow", "https://stackoverflow.com")]

  /** The first entry of `Sites`, from index `k` on, whose key occurs in `text`. */
  function FirstSiteFrom(text: string, k: nat): (r: Option<nat>)
    requires k <= |Sites|
    ensures r.Some? ==> k <= r.value < |Sites| && Contains(text, Sites[r.value].key)
    ensures forall i :: k <= i < |Sites| && (r.None? || i < r.value) ==> !Contains(text, Sites[i].key)
    decreases |Sites| - k
  {
    if k == |Sites| then None
    else if Contains(text, Sites[k].key) then Some(k)
    else FirstSiteFrom(text, k + 1)
  }

  function FirstSite(text: string): Option<nat> {
    FirstSiteFrom(text, 0)
  }

  const SearchUrlPrefix: string := "https://www.google.com/search?q="
  const YouTubeUrlPrefix: string := "https://www.youtube.com/results?search_query="

  /** The URL `open_site_or_search(text)` opens: the query goes into the search URL as it is. */
  function BrowseUrl(text: string): string {
    match FirstSite(text)
    case Some(i) => Sites[i].url
    case None => SearchUrlPrefix + text
  }

  function OpeningReply(key: string): string {
    "Opening " + key + "."
  }

  function SearchReply(text: string): string {
    "Searching the web for " + text + "."
  }

  /** What `open_site_or_search(text)` returns. */
  function BrowseReply(text: string): string {
    match FirstSite(text)
    case Some(i) => OpeningReply(Sites[i].key)
    case None => SearchReply(text)
  }

  function YouTubeUrl(q: string): string {
    YouTubeUrlPrefix + q
  }

  function YouTubeReply(q: string): string {
    "Looking for " + q + " on YouTube."
  }

  /** The YouTube URL is the results page with the query appended as it is, so the query can be
      read back from it and different queries open different pages. */
  lemma YouTubeQueryRecovered(q: string, q': string)
    ensures StartsWith(YouTubeUrl(q), YouTubeUrlPrefix)
    ensures YouTubeUrl(q)[|YouTubeUrlPrefix|..] == q
    ensures YouTubeUrl(q) == YouTubeUrl(q') ==> q == q'
  {
    assert YouTubeUrl(q)[|YouTubeUrlPrefix|..] == q;
    assert YouTubeUrl(q')[|YouTubeUrlPrefix|..] == q';
  }

  /** The first key of the table that occurs in `text` decides which site is opened. */
  lemma BrowseOpensFirstKey(text: string, i: nat)
    requires i < |Sites| && Contains(text, Sites[i].key)
    requires forall j :: 0 <= j < i ==> !Contains(text, Sites[j].key)
    ensures BrowseUrl(text) == Sites[i].url
    ensures BrowseReply(text) == "Opening " + Sites[i].key + "."
  {
    var r := FirstSite(text);
    assert r.Some? && r.value <= i;
  }

  /** The web is searched exactly when no key of the table occurs in `text`. */
  lemma BrowseSearchesWithoutKey(text: string)
    ensures BrowseUrl(text) == SearchUrlPrefix + text
      <==> forall i :: 0 <= i < |Sites| ==> !Contains(text, Sites[i].key)
    ensures BrowseReply(text) == "Searching the web for " + text + "."
      <==> forall i :: 0 <= i < |Sites| ==> !Contains(text, Sites[i].key)
  {
    match FirstSite(text)
    case Some(i) =>
      assert |Sites[i].url| < |SearchUrlPrefix|;
      assert BrowseReply(text)[0] == 'O';
    case None =>
  }
}
