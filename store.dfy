/**
 * The two text files of backend/jarvis.py as values: `reminders.txt`, one `"<due> | <message>"`
 * line per reminder, and `notes.txt`, one note per line.
 *
 * A file is its raw text. Python reads it in text mode, so every `"\r\n"` and every lone `"\r"`
 * reads back as `"\n"` (`Translate`), and `readlines` cuts the text after each `"\n"`
 * (`SplitLines`). Time is a count of microseconds since `datetime.min`; the timestamp text is
 * its decimal form, an injective serialiser that parses back to the same instant.
 */
module Store {
  import opened Options
  import opened Text

  // ---------------------------------------------------------------------------------------
  // Reading text files

  /** Universal-newline translation on reading: `"\r\n"` and `"\r"` both become `"\n"`. */
  function Translate(s: string): (r: string)
    ensures '\r' !in r
    decreases |s|
  {
    if s == [] then []
    else if s[0] == '\r' then "\n" + Translate(if |s| > 1 && s[1] == '\n' then s[2..] else s[1..])
    else [s[0]] + Translate(s[1..])
  }

  /** Text without carriage returns reads back as it is. */
  lemma {:induction false} TranslatePlain(s: string)
    requires '\r' !in s
    ensures Translate(s) == s
    decreases |s|
  {
    if s != [] {
      TranslatePlain(s[1..]);
    }
  }

  /** Text appended after a file is read back as it is, when it has no carriage return and does
      not start with a line feed that a carriage return at the end of the file would swallow. */
  lemma {:induction false} TranslateAppend(a: string, b: string)
    requires '\r' !in b && (b == [] || b[0] != '\n')
    ensures Translate(a + b) == Translate(a) + b
    decreases |a|
  {
    if a == [] {
      assert a + b == b;
      TranslatePlain(b);
    } else {
      var s := a + b;
      assert s[0] == a[0];
      if a[0] == '\r' && |a| > 1 && a[1] == '\n' {
        assert s[2..] == a[2..] + b;
        TranslateAppend(a[2..], b);
      } else if a[0] == '\r' {
        assert |s| > 1 ==> s[1] != '\n';
        assert s[1..] == a[1..] + b;
        TranslateAppend(a[1..], b);
      } else {
        assert s[1..] == a[1..] + b;
        TranslateAppend(a[1..], b);
      }
    }
  }

  /** A file ends at a line boundary: it is empty or its last character ends a line. */
  predicate Terminated(t: string) {
    t == [] || t[|t| - 1] == '\n' || t[|t| - 1] == '\r'
  }

  /** Reading a file that ends at a line boundary gives text that ends in a line feed. */
  lemma {:induction false} TranslateTerminated(t: string)
    requires Terminated(t)
    ensures var r := Translate(t); r == [] || r[|r| - 1] == '\n'
    decreases |t|
  {
    if t != [] {
      var rest := if t[0] == '\r' && |t| > 1 && t[1] == '\n' then t[2..] else t[1..];
      if rest != [] {
        assert rest[|rest| - 1] == t[|t| - 1];
        TranslateTerminated(rest);
      }
    }
  }

  /** One line as `readlines` returns it: non-empty, with a line feed at most at its end. */
  predicate IsLine(x: string) {
    x != [] && '\n' !in x[..|x| - 1]
  }

  predicate EndsLine(x: string) {
    x != [] && x[|x| - 1] == '\n'
  }

  /** What `readlines` can return: lines, every one but the last ending in a line feed. */
  predicate ProperLines(ls: seq<string>) {
    (forall i :: 0 <= i < |ls| ==> IsLine(ls[i]))
    && (forall i :: 0 <= i < |ls| - 1 ==> EndsLine(ls[i]))
  }

  /** `"".join(ls)`, which is also what `writelines(ls)` writes. */
  function Concat(ls: seq<string>): string {
    if ls == [] then [] else ls[0] + Concat(ls[1..])
  }

  /** `readlines` on translated text: the text cut after every line feed. */
  function SplitLines(s: string): seq<string>
    decreases |s|
  {
    if s == [] then []
    else
      var u := UpToNewline(s);
      if |u| == |s| then [s] else [s[..|u| + 1]] + SplitLines(s[|u| + 1..])
  }

  /** Reading a file: translate its line endings, then cut it into lines. */
  function ReadLines(t: string): seq<string> {
    SplitLines(Translate(t))
  }

  /** Where the first line of non-empty text ends: after its first line feed, or at the end. */
  function LineEnd(s: string): (k: nat)
    requires s != []
    ensures 0 < k <= |s|
  {
    var u := UpToNewline(s);
    if |u| == |s| then |s| else |u| + 1
  }

  /** `readlines` takes the first line off and carries on with the rest. */
  lemma SplitLinesStep(s: string)
    requires s != []
    ensures var k := LineEnd(s);
      && SplitLines(s) == [s[..k]] + SplitLines(s[k..])
      && IsLine(s[..k]) && (EndsLine(s[..k]) || k == |s|)
  {
    var u := UpToNewline(s);
    if |u| == |s| {
      WholeLine(s);
    } else {
      CutLine(s);
    }
  }

  lemma WholeLine(s: string)
    requires s != [] && |UpToNewline(s)| == |s|
    ensures var k := LineEnd(s);
      && SplitLines(s) == [s[..k]] + SplitLines(s[k..])
      && IsLine(s[..k]) && k == |s|
  {
    assert s[..|s| - 1] == UpToNewline(s)[..|s| - 1];
    assert s[..|s|] == s;
    assert s[|s|..] == [];
  }

  lemma CutLine(s: string)
    requires s != [] && |UpToNewline(s)| < |s|
    ensures var k := LineEnd(s);
      && SplitLines(s) == [s[..k]] + SplitLines(s[k..])
      && IsLine(s[..k]) && EndsLine(s[..k])
  {
    var u := UpToNewline(s);
    var k := |u| + 1;
    assert s[..k][..k - 1] == u;
  }

  lemma ConcatCons(x: string, ls: seq<string>)
    ensures Concat([x] + ls) == x + Concat(ls)
  {
    assert ([x] + ls)[1..] == ls;
  }

  /** The lines put back together give the text. */
  lemma {:induction false} SplitLinesConcat(s: string)
    ensures Concat(SplitLines(s)) == s
    decreases |s|
  {
    if s != [] {
      var k := LineEnd(s);
      var rest := SplitLines(s[k..]);
      SplitLinesStep(s);
      ConcatCons(s[..k], rest);
      SplitLinesConcat(s[k..]);
      assert Concat(SplitLines(s)) == s[..k] + s[k..];
      assert s[..k] + s[k..] == s;
    }
  }

  lemma ProperCons(x: string, ls: seq<string>)
    requires IsLine(x) && (EndsLine(x) || ls == []) && ProperLines(ls)
    ensures ProperLines([x] + ls)
  {
    var r := [x] + ls;
    forall i | 0 < i < |r| ensures r[i] == ls[i - 1] {
    }
  }

  /** `readlines` gives proper lines. */
  lemma {:induction false} SplitLinesProper(s: string)
    ensures ProperLines(SplitLines(s))
    decreases |s|
  {
    if s != [] {
      var k := LineEnd(s);
      SplitLinesStep(s);
      SplitLinesProper(s[k..]);
      ProperCons(s[..k], SplitLines(s[k..]));
    }
  }

  /** Text without carriage returns is cut into lines without carriage returns. */
  lemma {:induction false} SplitLinesPlain(s: string)
    requires '\r' !in s
    ensures forall x :: x in SplitLines(s) ==> '\r' !in x
    decreases |s|
  {
    if s != [] {
      var k := LineEnd(s);
      SplitLinesStep(s);
      assert '\r' !in s[..k] && '\r' !in s[k..] by {
        assert s == s[..k] + s[k..];
      }
      SplitLinesPlain(s[k..]);
    }
  }

  /** Text that ends in a line feed is cut into lines that all end in one. */
  lemma {:induction false} SplitLinesEnds(s: string)
    requires EndsLine(s)
    ensures forall x :: x in SplitLines(s) ==> EndsLine(x)
    decreases |s|
  {
    var k := LineEnd(s);
    SplitLinesStep(s);
    if k < |s| {
      assert s[k..][|s| - k - 1] == s[|s| - 1];
      SplitLinesEnds(s[k..]);
    } else {
      assert s[..k] == s;
      assert SplitLines(s[k..]) == [];
    }
  }

  /** The first line of text that starts with a whole line is that line. */
  lemma SplitLinesCons(x: string, y: string)
    requires IsLine(x) && (EndsLine(x) || y == [])
    ensures SplitLines(x + y) == [x] + SplitLines(y)
  {
    var s := x + y;
    var u := UpToNewline(s);
    if EndsLine(x) {
      assert s[..|x| - 1] == x[..|x| - 1];
      assert s[|x| - 1] == '\n';
      assert |u| == |x| - 1;
      assert s[..|u| + 1] == x;
      assert s[|u| + 1..] == y;
    } else {
      assert s == x;
      assert '\n' !in s;
      assert |u| == |s|;
    }
  }

  /** Proper lines put together are cut back into the same lines. */
  lemma {:induction false} SplitConcat(ls: seq<string>)
    requires ProperLines(ls)
    ensures SplitLines(Concat(ls)) == ls
  {
    if ls != [] {
      var rest := ls[1..];
      assert ProperLines(rest) by {
        forall i | 0 <= i < |rest| ensures IsLine(rest[i]) {
          assert rest[i] == ls[i + 1];
        }
        forall i | 0 <= i < |rest| - 1 ensures EndsLine(rest[i]) {
          assert rest[i] == ls[i + 1];
        }
      }
      SplitConcat(rest);
      assert IsLine(ls[0]);
      if rest != [] {
        assert EndsLine(ls[0]);
      }
      SplitLinesCons(ls[0], Concat(rest));
      assert ls == [ls[0]] + rest;
    }
  }

  /** Concatenation distributes over list append. */
  lemma {:induction false} ConcatAppend(a: seq<string>, b: seq<string>)
    ensures Concat(a + b) == Concat(a) + Concat(b)
  {
    if a == [] {
      assert a + b == b;
    } else {
      assert (a + b)[1..] == a[1..] + b;
      ConcatAppend(a[1..], b);
      assert (a + b)[0] == a[0];
    }
  }

  /** Lines without carriage returns put together have none. */
  lemma {:induction false} ConcatPlain(ls: seq<string>)
    requires forall i :: 0 <= i < |ls| ==> '\r' !in ls[i]
    ensures '\r' !in Concat(ls)
  {
    if ls != [] {
      assert forall i :: 0 <= i < |ls| - 1 ==> ls[1..][i] == ls[i + 1];
      ConcatPlain(ls[1..]);
    }
  }

  /** Translated text that ends with a line feed, followed by one more line, is cut into its own
      lines and then that line. */
  lemma SplitAppendLine(a: string, line: string)
    requires a == [] || EndsLine(a)
    requires IsLine(line)
    ensures SplitLines(a + line) == SplitLines(a) + [line]
  {
    var ls := SplitLines(a);
    SplitLinesProper(a);
    SplitLinesConcat(a);
    if a != [] {
      SplitLinesEnds(a);
    }
    var ls' := ls + [line];
    assert ProperLines(ls') by {
      forall i | 0 <= i < |ls'| - 1 ensures EndsLine(ls'[i]) {
        assert ls'[i] == ls[i];
        assert ls[i] in ls;
      }
      forall i | 0 <= i < |ls'| ensures IsLine(ls'[i]) {
        if i < |ls| {
          assert ls'[i] == ls[i];
        } else {
          assert ls'[i] == line;
        }
      }
    }
    ConcatAppend(ls, [line]);
    assert Concat([line]) == line by {
      assert [line][1..] == [];
      assert line + [] == line;
    }
    assert Concat(ls') == a + line;
    SplitConcat(ls');
  }

  /** A file that ends at a line boundary, followed by one more line, reads back as its own lines
      and then that line. */
  lemma AppendLine(t: string, line: string)
    requires Terminated(t) && IsLine(line) && '\r' !in line && line[0] != '\n'
    ensures ReadLines(t + line) == ReadLines(t) + [line]
  {
    TranslateAppend(t, line);
    TranslateTerminated(t);
    SplitAppendLine(Translate(t), line);
  }

  // ---------------------------------------------------------------------------------------
  // Time

  /** `datetime` ticks: one per microsecond. */
  const MicrosPerMinute: nat := 60000000

  /** `datetime.max`, 9999-12-31 23:59:59.999999, in microseconds since `datetime.min`. */
  const MaxInstant: nat := 3652059 * 86400000000 - 1

  /** A naive `datetime`, in microseconds since 0001-01-01 00:00. */
  type Instant = n: nat | n <= MaxInstant

  /** `now + timedelta(minutes=minutes)`, or `None` where Python raises `OverflowError`. */
  function DueTime(now: Instant, minutes: nat): (r: Option<Instant>)
    ensures minutes == 0 ==> r == Some(now)
    ensures r.Some? ==> now <= r.value
  {
    var due := now + minutes * MicrosPerMinute;
    if due <= MaxInstant then Some(due) else None
  }

  /** A later due time needs more minutes: when `b` minutes fit before `datetime.max`, so do
      `a <= b` minutes, and they give an instant no later. */
  lemma DueTimeMonotone(now: Instant, a: nat, b: nat)
    requires a <= b && DueTime(now, b).Some?
    ensures DueTime(now, a).Some? && DueTime(now, a).value <= DueTime(now, b).value
  {
    assert a * MicrosPerMinute <= b * MicrosPerMinute;
  }

  /** Waiting `a` minutes and then `b` more is waiting `a + b` minutes, and the sum overflows
      exactly when the second step does. */
  lemma DueTimeAdditive(now: Instant, a: nat, b: nat)
    requires DueTime(now, a).Some?
    ensures DueTime(now, a + b) == DueTime(DueTime(now, a).value, b)
  {
    assert (a + b) * MicrosPerMinute == a * MicrosPerMinute + b * MicrosPerMinute;
  }

  /** `due.isoformat()`, modelled as the decimal count of microseconds. */
  function Serialise(d: Instant): (r: string)
    ensures r != [] && AllDigits(r)
  {
    NatToDec(d)
  }

  /** `datetime.fromisoformat(s)`: the instant a serialised timestamp stands for, or `None` where
      Python raises `ValueError`. */
  function ParseInstant(s: string): Option<Instant> {
    if s != [] && AllDigits(s) && DecValue(s) <= MaxInstant then Some(DecValue(s)) else None
  }

  /** Every timestamp parses back to the instant it was written from. */
  lemma ParseSerialise(d: Instant)
    ensures ParseInstant(Serialise(d)) == Some(d)
  {
    DecRoundTrip(d);
  }

  /** Different instants are written differently. */
  lemma SerialiseInjective(d: Instant, e: Instant)
    requires Serialise(d) == Serialise(e)
    ensures d == e
  {
    NatToDecInjective(d, e);
  }

  // ---------------------------------------------------------------------------------------
  // Reminder lines

  /** The separator between the timestamp and the message. */
  const Separator: string := " | "

  datatype Entry = Entry(due: Instant, message: string)

  /** The line `schedule_reminder` appends: `f"{due.isoformat()} | {msg}\n"`. */
  function ReminderLine(d: Instant, m: string): string {
    Serialise(d) + Separator + m + "\n"
  }

  /** What `check_due_reminders` makes of a line: `line.strip().split(" | ", 1)` must give two
      parts and the first must be a timestamp; otherwise the line is malformed (`None`). */
  function ParseLine(line: string): Option<Entry> {
    var s := Strip(line, Whitespace);
    match IndexOf(s, Separator)
    case None => None
    case Some(k) =>
      match ParseInstant(s[..k])
      case None => None
      case Some(d) => Some(Entry(d, s[k + |Separator|..]))
  }

  /** A message `schedule_reminder` can be given by the router: non-empty, nothing to strip at
      its end, and on one line. */
  predicate StorableMessage(m: string) {
    m != [] && !IsSpace(m[|m| - 1]) && '\n' !in m && '\r' !in m
  }

  lemma DigitsThenSeparator(ds: string, rest: string)
    requires AllDigits(ds)
    ensures IndexOf(ds + Separator + rest, Separator) == Some(|ds|)
  {
    var s := ds + Separator + rest;
    assert OccursAt(s, Separator, |ds|);
    forall i | 0 <= i < |ds| ensures !OccursAt(s, Separator, i) {
      assert s[i] == ds[i];
    }
  }

  /** A line written by `schedule_reminder` parses back to the same due time and message. */
  lemma ParseReminderLine(d: Instant, m: string)
    requires m != [] && !IsSpace(m[|m| - 1])
    ensures ParseLine(ReminderLine(d, m)) == Some(Entry(d, m))
  {
    var ds := Serialise(d);
    var body := ds + Separator + m;
    var line := ReminderLine(d, m);
    assert line == body + "\n";
    assert TrimLeft(line, Whitespace) == line;
    assert TrimRight(body, Whitespace) == body;
    assert TrimRight(line, Whitespace) == TrimRight(body, Whitespace);
    DigitsThenSeparator(ds, m);
    assert body[..|ds|] == ds;
    assert body[|ds| + |Separator|..] == m;
    ParseSerialise(d);
  }

  /** A reminder line is one line that starts with a digit. */
  lemma ReminderLineShape(d: Instant, m: string)
    requires '\n' !in m && '\r' !in m
    ensures var line := ReminderLine(d, m);
      IsLine(line) && EndsLine(line) && '\r' !in line && IsDigit(line[0])
  {
    var ds := Serialise(d);
    var line := ReminderLine(d, m);
    assert line[..|line| - 1] == ds + Separator + m;
    assert line[0] == ds[0];
    assert forall i :: 0 <= i < |ds| ==> IsDigit(ds[i]);
  }

  // ---------------------------------------------------------------------------------------
  // The sweep of check_due_reminders

  /** What `check_due_reminders` says before the message of a due reminder. */
  const ReminderPrefix: string := "Reminder: "

  /** What one line contributes to the announcements: `"Reminder: " + msg` when it is due. */
  function Announce(line: string, now: Instant): seq<string> {
    match ParseLine(line)
    case Some(e) => if e.due <= now then [ReminderPrefix + e.message] else []
    case None => []
  }

  /** What one line contributes to the rewritten file: the line itself when it is still to come. */
  function Keep(line: string, now: Instant): seq<string> {
    match ParseLine(line)
    case Some(e) => if e.due <= now then [] else [line]
    case None => []
  }

  /** What the sweep speaks, in file order. */
  function Announcements(ls: seq<string>, now: Instant): seq<string> {
    if ls == [] then [] else Announcements(ls[..|ls| - 1], now) + Announce(ls[|ls| - 1], now)
  }

  /** The lines the sweep writes back, in file order. */
  function Pending(ls: seq<string>, now: Instant): seq<string> {
    if ls == [] then [] else Pending(ls[..|ls| - 1], now) + Keep(ls[|ls| - 1], now)
  }

  /** The number of lines the sweep cannot parse and drops. */
  function Malformed(ls: seq<string>): nat {
    if ls == [] then 0 else Malformed(ls[..|ls| - 1]) + if ParseLine(ls[|ls| - 1]).None? then 1 else 0
  }

  lemma AnnouncementsSnoc(ls: seq<string>, x: string, now: Instant)
    ensures Announcements(ls + [x], now) == Announcements(ls, now) + Announce(x, now)
    ensures Pending(ls + [x], now) == Pending(ls, now) + Keep(x, now)
    ensures Malformed(ls + [x]) == Malformed(ls) + if ParseLine(x).None? then 1 else 0
  {
    assert (ls + [x])[..|ls|] == ls;
  }

  /** One more line of a sweep: what the first `i + 1` lines give is what the first `i` give,
      followed by what line `i` gives. */
  lemma SweepStep(ls: seq<string>, i: nat, now: Instant)
    requires i < |ls|
    ensures Announcements(ls[..i + 1], now) == Announcements(ls[..i], now) + Announce(ls[i], now)
    ensures Pending(ls[..i + 1], now) == Pending(ls[..i], now) + Keep(ls[i], now)
  {
    assert ls[..i + 1] == ls[..i] + [ls[i]];
    AnnouncementsSnoc(ls[..i], ls[i], now);
  }

  /** Every line is announced, kept or dropped as malformed, and only one of these. */
  lemma {:induction false} SweepPartition(ls: seq<string>, now: Instant)
    ensures |Announcements(ls, now)| + |Pending(ls, now)| + Malformed(ls) == |ls|
  {
    if ls != [] {
      SweepPartition(ls[..|ls| - 1], now);
    }
  }

  /** The kept lines are lines of the file, each well formed and still to come. */
  lemma {:induction false} PendingFuture(ls: seq<string>, now: Instant)
    ensures forall x :: x in Pending(ls, now) ==>
      x in ls && ParseLine(x).Some? && ParseLine(x).value.due > now
  {
    if ls != [] {
      var init := ls[..|ls| - 1];
      PendingFuture(init, now);
      forall x | x in init ensures x in ls {
        var i :| 0 <= i < |init| && init[i] == x;
        assert ls[i] == x;
      }
    }
  }

  /** Every announcement is the message of a due, well-formed line of the file. */
  lemma {:induction false} AnnouncementsDue(ls: seq<string>, now: Instant)
    ensures forall a :: a in Announcements(ls, now) ==>
      exists x :: x in ls && ParseLine(x).Some? && ParseLine(x).value.due <= now
        && a == "Reminder: " + ParseLine(x).value.message
  {
    if ls != [] {
      var init := ls[..|ls| - 1];
      AnnouncementsDue(init, now);
      forall x | x in init ensures x in ls {
        var i :| 0 <= i < |init| && init[i] == x;
        assert ls[i] == x;
      }
    }
  }

  lemma Snoc<T>(s: seq<T>)
    requires s != []
    ensures s == s[..|s| - 1] + [s[|s| - 1]]
  {
  }

  /** Lines that are all still to come are all kept, and none is announced. */
  lemma {:induction false} SweepFuture(ls: seq<string>, now: Instant)
    requires forall x :: x in ls ==> ParseLine(x).Some? && ParseLine(x).value.due > now
    ensures Announcements(ls, now) == [] && Pending(ls, now) == ls
    decreases |ls|
  {
    if ls != [] {
      var init := ls[..|ls| - 1];
      var x := ls[|ls| - 1];
      assert x in ls;
      assert Announce(x, now) == [] && Keep(x, now) == [x];
      forall y | y in init ensures y in ls {
        var i :| 0 <= i < |init| && init[i] == y;
        assert ls[i] == y;
      }
      SweepFuture(init, now);
      Snoc(ls);
    }
  }

  /** Sweeping two parts of a file one after the other is sweeping the whole file. */
  lemma {:induction false} PendingAppend(a: seq<string>, b: seq<string>, now: Instant)
    ensures Pending(a + b, now) == Pending(a, now) + Pending(b, now)
    ensures Announcements(a + b, now) == Announcements(a, now) + Announcements(b, now)
    decreases |b|
  {
    if b == [] {
      assert a + b == a;
    } else {
      var init := b[..|b| - 1];
      var x := b[|b| - 1];
      PendingAppend(a, init, now);
      Snoc(b);
      AppendAssoc(a, init, [x]);
      AnnouncementsSnoc(a + init, x, now);
      AnnouncementsSnoc(init, x, now);
      AppendAssoc(Pending(a, now), Pending(init, now), Keep(x, now));
      AppendAssoc(Announcements(a, now), Announcements(init, now), Announce(x, now));
    }
  }

  /** A later sweep over what an earlier sweep kept keeps what a single later sweep keeps. */
  lemma {:induction false} PendingLater(ls: seq<string>, n1: Instant, n2: Instant)
    requires n1 <= n2
    ensures Pending(Pending(ls, n1), n2) == Pending(ls, n2)
  {
    if ls != [] {
      var init := ls[..|ls| - 1];
      var x := ls[|ls| - 1];
      PendingLater(init, n1, n2);
      PendingAppend(Pending(init, n1), Keep(x, n1), n2);
      if Keep(x, n1) == [x] {
        assert Pending([x], n2) == Keep(x, n2) by {
          assert [x][..0] == [];
        }
      }
    }
  }

  /** Kept lines of proper lines are proper lines. */
  lemma {:induction false} PendingProper(ls: seq<string>, now: Instant)
    requires ProperLines(ls)
    ensures ProperLines(Pending(ls, now))
  {
    if ls != [] {
      var init := ls[..|ls| - 1];
      var x := ls[|ls| - 1];
      assert ProperLines(init);
      PendingProper(init, now);
      var p := Pending(init, now);
      InitEndsLines(ls);
      PendingFuture(init, now);
      assert ProperLines(Keep(x, now)) by {
        assert IsLine(x);
      }
      assert Pending(ls, now) == p + Keep(x, now);
      ProperSnoc(p, Keep(x, now));
    }
  }

  /** Every proper line but the last ends in a line feed. */
  lemma InitEndsLines(ls: seq<string>)
    requires ProperLines(ls) && ls != []
    ensures forall y :: y in ls[..|ls| - 1] ==> EndsLine(y)
  {
    forall y | y in ls[..|ls| - 1] ensures EndsLine(y) {
      var i :| 0 <= i < |ls| - 1 && ls[..|ls| - 1][i] == y;
      assert ls[i] == y;
    }
  }

  /** Proper lines that all end in a line feed, followed by at most one more line, are proper. */
  lemma ProperSnoc(p: seq<string>, k: seq<string>)
    requires ProperLines(p) && (forall y :: y in p ==> EndsLine(y)) && ProperLines(k) && |k| <= 1
    ensures ProperLines(p + k)
  {
    var q := p + k;
    forall i | 0 <= i < |q| ensures IsLine(q[i]) {
      if i < |p| {
        assert q[i] == p[i];
      } else {
        assert q[i] == k[i - |p|];
      }
    }
    forall i | 0 <= i < |q| - 1 ensures EndsLine(q[i]) {
      assert q[i] == p[i] && p[i] in p;
    }
  }

  /** A sweep leaves a file that the next sweep reads back line for line, in which nothing is due
      yet at the same instant. */
  lemma SweepIdempotent(t: string, now: Instant)
    ensures var p := Pending(ReadLines(t), now);
      ReadLines(Concat(p)) == p && Announcements(p, now) == [] && Pending(p, now) == p
  {
    var ls := ReadLines(t);
    var p := Pending(ls, now);
    SplitLinesProper(Translate(t));
    SplitLinesPlain(Translate(t));
    PendingProper(ls, now);
    PendingFuture(ls, now);
    forall i | 0 <= i < |p| ensures '\r' !in p[i] {
      assert p[i] in p;
    }
    ConcatPlain(p);
    TranslatePlain(Concat(p));
    SplitConcat(p);
    SweepFuture(p, now);
  }

  /** A sweep of a file that ends at a line boundary leaves a file that does too. */
  lemma SweepTerminated(t: string, now: Instant)
    requires Terminated(t)
    ensures Terminated(Concat(Pending(ReadLines(t), now)))
  {
    var ls := ReadLines(t);
    var p := Pending(ls, now);
    if p != [] {
      var last := p[|p| - 1];
      assert last in ls by {
        assert last in p;
        PendingFuture(ls, now);
      }
      assert EndsLine(last) by {
        assert Translate(t) != [];
        TranslateTerminated(t);
        SplitLinesEnds(Translate(t));
      }
      ConcatEndsLine(p);
    }
  }

  /** Lines whose last one ends in a line feed are put together into text that does too. */
  lemma ConcatEndsLine(p: seq<string>)
    requires p != [] && EndsLine(p[|p| - 1])
    ensures EndsLine(Concat(p))
  {
    var init, last := p[..|p| - 1], p[|p| - 1];
    assert p == init + [last];
    ConcatAppend(init, [last]);
    assert Concat([last]) == last by {
      assert [last][1..] == [];
      assert last + [] == last;
    }
    EndsLineAfter(Concat(init), last);
  }

  lemma EndsLineAfter(a: string, x: string)
    requires EndsLine(x)
    ensures EndsLine(a + x)
  {
    assert (a + x)[|a + x| - 1] == x[|x| - 1];
  }

  /** A reminder appended to a file that ends at a line boundary is read back as one more line:
      the sweep announces it once it is due and keeps it verbatim until then, and treats every
      earlier line as before. */
  lemma ScheduledLineIsSwept(t: string, d: Instant, m: string, now: Instant)
    requires Terminated(t) && StorableMessage(m)
    ensures var ls := ReadLines(t); var line := ReminderLine(d, m);
      && ReadLines(t + line) == ls + [line]
      && Announcements(ReadLines(t + line), now)
           == Announcements(ls, now) + (if d <= now then ["Reminder: " + m] else [])
      && Pending(ReadLines(t + line), now) == Pending(ls, now) + (if d <= now then [] else [line])
  {
    var line := ReminderLine(d, m);
    ReminderLineShape(d, m);
    AppendLine(t, line);
    ParseReminderLine(d, m);
    AnnouncementsSnoc(ReadLines(t), line, now);
  }

  // ---------------------------------------------------------------------------------------
  // Notes

  /** The text `save_note` writes: what the file reads as (nothing when it is missing), the note
      and a line feed. */
  function AppendNote(f: Option<string>, x: string): string {
    Translate(f.GetOr("")) + x + "\n"
  }

  const NoNotesReply: string := "No notes yet."
  const NotesHeader: string := "Here are your notes:\n"

  /** The reply of `list_notes`. */
  function NotesListing(f: Option<string>): string {
    match f
    case None => NoNotesReply
    case Some(t) => NotesHeader + Translate(t)
  }

  /** After a note is saved the listing shows every earlier note and then the new one on its own
      line. */
  lemma SavedNoteIsListed(f: Option<string>, x: string)
    requires '\r' !in x
    ensures NotesListing(Some(AppendNote(f, x)))
      == "Here are your notes:\n" + Translate(f.GetOr("")) + x + "\n"
  {
    var a := Translate(f.GetOr(""));
    var saved := AppendNote(f, x);
    SavedNoteReadsBack(f, x);
    assert NotesListing(Some(saved)) == NotesHeader + saved;
    assert saved == (a + x) + "\n";
    AppendAssoc(NotesHeader, a + x, "\n");
    AppendAssoc(NotesHeader, a, x);
  }

  /** What `save_note` writes reads back as it is. */
  lemma SavedNoteReadsBack(f: Option<string>, x: string)
    requires '\r' !in x
    ensures Translate(AppendNote(f, x)) == AppendNote(f, x)
  {
    var a := Translate(f.GetOr(""));
    var saved := AppendNote(f, x);
    assert saved == a + (x + "\n");
    NoCarriageReturnIn(a, x + "\n");
    TranslatePlain(saved);
  }

  lemma NoCarriageReturnIn(a: string, b: string)
    requires '\r' !in a && '\r' !in b
    ensures '\r' !in a + b
  {
  }

  /** The saved note is the last line of the notes file, and the earlier lines are unchanged. */
  lemma SavedNoteIsLastLine(f: Option<string>, x: string)
    requires '\r' !in x && '\n' !in x && Terminated(f.GetOr(""))
    ensures ReadLines(AppendNote(f, x)) == ReadLines(f.GetOr("")) + [x + "\n"]
  {
    var a := Translate(f.GetOr(""));
    var line := x + "\n";
    assert AppendNote(f, x) == a + line;
    TranslateTerminated(f.GetOr(""));
    assert line[..|line| - 1] == x;
    TranslatePlain(a + line);
    SplitAppendLine(a, line);
  }
}
