# Jarvis voice assistant: the command core, verified

This project models the part of the Jarvis assistant (`backend/jarvis.py`) that turns a
recognised sentence into an action and a reply:

- `clean` and `remove_wake`, which normalise the text and drop the wake word "jarvis";
- `handle_command`, the first-match-wins router. Here it is the pure classifier
  `Router.Route` (a command string to an `Intent` with its captures) plus the imperative
  `Assistant.Assistant.HandleCommand`, which carries the intent out and speaks the reply;
- `open_site_or_search` and `open_youtube_search`, with the URL handed to the browser recorded
  in a ghost log;
- the reminder store: `schedule_reminder` appends a `"<due> | <message>"` line and
  `check_due_reminders` announces the well-formed lines that are due and rewrites the file
  with only the well-formed lines still to come, in order, dropping malformed lines;
- the notes file: `save_note` and `list_notes`;
- `speak`, which returns its argument and records it in a ghost log of everything said.

The modules follow the program's layers:

- `Text`: ASCII character classes, the `str` methods and regular-expression pieces used, and
  decimal `int`/`str`.
- `Normalizer`: `clean` and `remove_wake`.
- `Store`: how the files are read (universal newlines, `readlines`), time, and the reminder
  and note formats. It also gives the sweep of `check_due_reminders` as functions.
- `Router`: the rule table and its captures.
- `Assistant`: the class holding the two files and the logs.

Time is a natural number of microseconds since `datetime.min`, bounded by `datetime.max`. A
reminder whose due time would pass that bound raises `OverflowError` in Python; here that is a
`None` reply with nothing changed. `isoformat`/`fromisoformat` are modelled as the decimal
count of microseconds: an injective serialiser made of digits only, which parses back to the
same instant. Clock formatting, the weather service, Wikipedia and the joke library are
parameters (the `Services` datatype).

## Model

| member | source | states |
|---|---|---|
| Text.StripSpec | backend/jarvis.py:57 | `strip()` keeps one slice of the text; everything cut off either side is whitespace, and the kept text neither starts nor ends with whitespace |
| Text.ContainsSpec | backend/jarvis.py:172 | `pat in s` holds exactly when `pat` occurs at some index of `s` |
| Text.DecRoundTrip | backend/jarvis.py:212 | `int(str(n)) == n` for every natural number |
| Text.NatToDecInjective | backend/jarvis.py:142 | different minute counts are written differently in the reply |
| Normalizer.Collapse | backend/jarvis.py:57 | defines `re.sub(r"\s+", " ", s)`: each maximal run of whitespace becomes one space; `CollapseShape` and `CollapseJoinsFields` state what that gives |
| Normalizer.CollapseShape | backend/jarvis.py:57 | `re.sub(r"\s+", " ", s)` leaves only single plain spaces, is empty exactly when `s` is, has a blank at either end exactly when `s` has whitespace there, and brings in no upper-case letter |
| Normalizer.CollapseJoinsFields | backend/jarvis.py:57 | for text not starting with whitespace, collapsing equals joining the `split()` fields with single spaces, plus one space when the text ends in whitespace |
| Normalizer.Clean | backend/jarvis.py:56-57 | defines `clean` as strip, then lower, then collapse; its shape, fixed points, idempotence and the split-and-join reading are the lemmas below |
| Normalizer.CleanShape | backend/jarvis.py:56-57 | the result of `clean` is lower-case, has no whitespace but single plain spaces, and no space at either end |
| Normalizer.CleanFixedPoint | backend/jarvis.py:56-57 | `clean(s) == s` exactly when `s` has that clean shape |
| Normalizer.CleanIdempotent | backend/jarvis.py:56-57 | `clean(clean(t)) == clean(t)` |
| Normalizer.CleanIsJoinedFields | backend/jarvis.py:56-57 | `clean(t) == " ".join(t.lower().split())`, an independent definition of `clean` |
| Normalizer.StripPunctuationClean | backend/jarvis.py:62 | stripping `,.:- ` from lower-case, plainly spaced text leaves clean text |
| Normalizer.RemoveWake | backend/jarvis.py:59-63 | defines `remove_wake`: clean, and when the result starts with "jarvis", replace that first occurrence, strip `,.:- `, then strip whitespace; `RemoveWakeSpec` and `RemoveWakeRoundTrip` state what it returns |
| Normalizer.RemoveWakeSpec | backend/jarvis.py:59-63 | the result of `remove_wake` is clean. When `clean(t)` starts with "jarvis", the result is `clean(t)` without that leading word and stripped of `,.:- `, and the last whitespace strip changes nothing. Otherwise the result is `clean(t)` |
| Normalizer.RemoveWakeRoundTrip | backend/jarvis.py:59-63 | `remove_wake("jarvis" + sep + c) == c` for clean text and a separator of `,.:- ` characters, including the empty one (no word boundary: "jarvisopen x" gives "open x") |
| Store.Translate | backend/jarvis.py:149-150 | reading in text mode turns `"\r\n"` and a lone `"\r"` into `"\n"`, so no carriage return is left |
| Store.SplitLines | backend/jarvis.py:150 | defines `readlines` as cutting after every line feed; `SplitLinesConcat` and `SplitLinesProper` state what it returns |
| Store.TranslatePlain | backend/jarvis.py:149-150 | text-mode reading returns text without carriage returns unchanged |
| Store.TranslateAppend | backend/jarvis.py:123 | text appended after a file reads back unchanged after what the file reads as |
| Store.SplitLinesConcat | backend/jarvis.py:150 | the lines of `readlines` put back together give the text read |
| Store.SplitLinesProper | backend/jarvis.py:150 | `readlines` gives non-empty lines, each with a line feed only at its end, every one but the last ending in one |
| Store.DueTime | backend/jarvis.py:132 | `now + timedelta(minutes=0)` is `now`, and a due time that can be represented is never before `now` |
| Store.DueTimeMonotone | backend/jarvis.py:132 | fewer minutes never overflow where more do not, and give a due time no later |
| Store.DueTimeAdditive | backend/jarvis.py:132 | adding `a` minutes and then `b` minutes is adding `a + b` minutes, and it overflows exactly when that does |
| Store.ReminderLine | backend/jarvis.py:133 | defines the line `schedule_reminder` appends: the due time, the separator (space, vertical bar, space), the message and a line feed; `ParseReminderLine` states that it parses back |
| Store.ParseSerialise | backend/jarvis.py:154 | every timestamp written parses back to the instant it was written from |
| Store.SerialiseInjective | backend/jarvis.py:133 | different instants are written differently |
| Store.ParseLine | backend/jarvis.py:153-154 | defines the parse of a line: strip it, split it at the first separator, and read the part before as a timestamp; a line without a separator or with a bad timestamp is malformed |
| Store.ParseReminderLine | backend/jarvis.py:153-154 | a line `schedule_reminder` writes parses back to the same due time and message |
| Store.Announce | backend/jarvis.py:155-156 | defines what one line says: "Reminder: " and its message when it is well formed and due, otherwise nothing |
| Store.Keep | backend/jarvis.py:155-158 | defines what one line leaves in the file: the line when it is well formed and still to come, otherwise nothing |
| Store.Announcements | backend/jarvis.py:151-156 | defines what the loop says as the announcements of the lines in file order; `AnnouncementsDue` and `SweepStep` state what it holds |
| Store.Pending | backend/jarvis.py:151-160 | defines the rewritten file's lines as the kept lines in file order, malformed lines dropped; `PendingFuture`, `PendingLater` and `SweepIdempotent` state what it holds |
| Store.SweepPartition | backend/jarvis.py:151-160 | every line is announced, kept or dropped as malformed, and only one of these |
| Store.PendingFuture | backend/jarvis.py:155-158 | the kept lines are lines of the file, each well formed and not yet due |
| Store.AnnouncementsDue | backend/jarvis.py:155-156 | every announcement is "Reminder: " and the message of a well-formed line of the file that is due |
| Store.SweepFuture | backend/jarvis.py:151-160 | a file whose lines are all still to come is kept whole and nothing is announced |
| Store.SweepStep | backend/jarvis.py:151-158 | one more line adds its announcement and its kept line after those of the lines before it, in file order |
| Store.PendingAppend | backend/jarvis.py:151-160 | sweeping two parts of a file one after the other is sweeping the whole file |
| Store.PendingLater | backend/jarvis.py:144-162 | a later sweep over what an earlier sweep kept keeps exactly what one later sweep keeps |
| Store.PendingProper | backend/jarvis.py:158 | the kept lines are still proper `readlines` lines |
| Store.SweepIdempotent | backend/jarvis.py:144-162 | the rewritten file reads back line for line, and sweeping it again at the same instant announces nothing and keeps everything |
| Store.SweepTerminated | backend/jarvis.py:161-162 | a file that ends at a line boundary is rewritten as one that does too |
| Store.ScheduledLineIsSwept | backend/jarvis.py:131-162 | a reminder appended to a file ending at a line boundary reads back as one more line. A later sweep announces its message once it is due and keeps it verbatim until then, and treats every earlier line as before |
| Store.AppendNote | backend/jarvis.py:123 | defines the text `save_note` writes: what the file reads as (nothing when it is missing), the note and a line feed |
| Store.NotesListing | backend/jarvis.py:126-129 | defines the reply of `list_notes`: "No notes yet." without a file, else the header and what the file reads as |
| Store.SavedNoteIsListed | backend/jarvis.py:122-129 | after a note is saved, the listing shows the earlier notes and then the new note and a line feed |
| Store.SavedNoteIsLastLine | backend/jarvis.py:123 | the saved note is the last line of the notes file, and the earlier lines are unchanged |
| Router.FirstKeyword | backend/jarvis.py:192 | the keyword picked is the first of the table that begins the command and is followed by whitespace, the alternative the anchored pattern matches |
| Router.DropKeyword | backend/jarvis.py:187-204 | the prefix strip returns a suffix of the command, and returns the command unchanged when no keyword of the table is followed by whitespace |
| Router.DropKeywordCut | backend/jarvis.py:192 | the strip removes the matching keyword and the whole, non-empty whitespace run after it, so the query never starts with whitespace |
| Router.DropKeywordInverse | backend/jarvis.py:191-204 | removing a table keyword and the whitespace after it from `keyword + ws + q` gives back `q` |
| Router.SpacedKeyword | backend/jarvis.py:191-192 | when the command starts with a keyword and a space, the strip finds a keyword to remove |
| Router.KeywordTablesPrefixFree | backend/jarvis.py:186-204 | in each keyword table no keyword begins another |
| Router.GreetingSpec | backend/jarvis.py:170 | the greeting rule fires exactly when hello, hi or hey occurs as a whole word |
| Router.WeatherCity | backend/jarvis.py:181-183 | defines the city of the weather rule as what `CityAfter` captures after the leftmost "weather"; `WeatherCityAfterFirst` states that |
| Router.CityAfter | backend/jarvis.py:181-183 | a city is captured exactly when " in " and at least one word or whitespace character follow "weather" |
| Router.CityShape | backend/jarvis.py:183 | the captured city is made of word and whitespace characters and is stripped |
| Router.CityRoundTrip | backend/jarvis.py:181-183 | a city after "weather in ", with any whitespace before and after it and ended by any other character, is captured without that whitespace |
| Router.WeatherCityAfterFirst | backend/jarvis.py:181 | the city is looked for after the leftmost "weather" only |
| Router.UnitLength | backend/jarvis.py:210 | the unit group matches exactly when "min" comes next; it takes one of "minutes", "minute" and "min", and the longest of them that begins the text, as the alternation order decides |
| Router.MessageOf | backend/jarvis.py:213 | defines the message as the rest of the line after the whitespace, stripped, or "No message" when that is empty; `MessageShape`, `MessageRoundTrip` and `MessageOfBlank` state what it returns |
| Router.RequestAfter | backend/jarvis.py:210-213 | a reminder request is parsed only where a digit run begins; the minutes are that run, and the message is what `MessageOf` makes of the text after the unit |
| Router.RemindFrom | backend/jarvis.py:210 | the reminder pattern is matched at its leftmost match position |
| Router.ParseRemind | backend/jarvis.py:210 | the reminder pattern matches exactly when it matches at some index of the command |
| Router.MessageShape | backend/jarvis.py:213 | a reminder message is never empty, is on one line and has no whitespace at either end |
| Router.RemindMessageShape | backend/jarvis.py:210-213 | so is the message parsed from any command |
| Router.MessageRoundTrip | backend/jarvis.py:213 | a one-line message with no whitespace at its ends comes back as it is |
| Router.MessageOfBlank | backend/jarvis.py:213 | nothing but whitespace gives "No message" |
| Router.RemindParts | backend/jarvis.py:210-213 | "remind me in <n><ws><unit><tail>" parses to `n` minutes and the message of `tail`, for every unit spelling |
| Router.RemindRoundTrip | backend/jarvis.py:210-213 | "remind me in <n> <unit> <m>" gives back `n` and `m`, 0 minutes included |
| Router.RemindWithoutMessage | backend/jarvis.py:210-213 | a reminder with nothing after the unit has the message "No message" |
| Router.RemindIntent | backend/jarvis.py:210-214 | a reminder intent carries the minutes and message the pattern parsed |
| Router.Build | backend/jarvis.py:170-214 | defines the intent each rule produces and what it captures from the command |
| Router.Route | backend/jarvis.py:166-219 | defines `handle_command`'s chain of early returns: an empty command, then each rule in source order, then the fallback; `RouteIsFirstMatch` and `RouteEnds` state it |
| Router.FirstFiring | backend/jarvis.py:170-217 | the rule found fires and no earlier rule in the table fires |
| Router.RouteIsFirstMatch | backend/jarvis.py:166-219 | the chain of early returns is the first-match-wins reading of the rule table |
| Router.RouteEnds | backend/jarvis.py:166-219 | "No command detected." comes exactly for the empty command, and the fallback exactly when no rule fires |
| Router.ClockWordsShadowLaterRules | backend/jarvis.py:176-184 | a command containing "time", "date" or "day" never reaches the weather rule or any later rule |
| Router.WeatherTodayIsDate | backend/jarvis.py:176-184 | "weather today" gets the date reply |
| Router.FirstSiteFrom | backend/jarvis.py:111-114 | the site found has its key in the text, and no earlier site of the table does |
| Router.BrowseUrl | backend/jarvis.py:111-115 | defines the URL opened: that of the first site whose key occurs, else the search URL with the text |
| Router.BrowseReply | backend/jarvis.py:111-116 | defines the reply: "Opening key." for that site, else "Searching the web for text." |
| Router.BrowseOpensFirstKey | backend/jarvis.py:103-114 | the first key of the table that occurs in the text decides the URL and the reply "Opening key." |
| Router.BrowseSearchesWithoutKey | backend/jarvis.py:111-116 | the web is searched, with the reply "Searching the web for text.", exactly when no key occurs |
| Router.YouTubeUrl | backend/jarvis.py:119 | defines the URL `open_youtube_search` opens: the results page with the query appended |
| Router.YouTubeReply | backend/jarvis.py:120 | defines the reply "Looking for q on YouTube." |
| Router.YouTubeQueryRecovered | backend/jarvis.py:119 | the query is appended to the results URL as it is: it can be read back, and different queries open different URLs |
| Assistant.Reply | backend/jarvis.py:166-219 | defines the reply to each intent, the one `handle_command` speaks and returns, and `None` for the reminder whose due time overflows |
| Assistant.ReplyFailsOnlyOnOverflow | backend/jarvis.py:131-132 | a command fails only when it asks for a reminder whose due time passes `datetime.max` |
| Assistant.RemindCommandIsSwept | backend/jarvis.py:210-214 | a reminder command adds one line to the file. A later sweep announces exactly its message once due and keeps the line until then |
| Assistant.Assistant.constructor | backend/jarvis.py:37-38 | the assistant starts from the two files as they are, with nothing said or opened |
| Assistant.Assistant.Speak | backend/jarvis.py:42-54 | `speak` returns its text unchanged and records it as said |
| Assistant.Assistant.SaveNote | backend/jarvis.py:122-124 | the notes file becomes what it read as, the note and a line feed; "Saved your note." is returned |
| Assistant.Assistant.ListNotes | backend/jarvis.py:126-129 | "No notes yet." without a file, else the header and the file's text |
| Assistant.Assistant.ScheduleReminder | backend/jarvis.py:131-142 | exactly one reminder line is appended and the earlier text is unchanged, with the reply naming the minutes; on overflow nothing is written |
| Assistant.Assistant.SweepLine | backend/jarvis.py:152-160 | one line is announced when well formed and due, kept when well formed and still to come, and dropped otherwise |
| Assistant.Assistant.SweepLines | backend/jarvis.py:147-160 | the loop speaks the announcements of the lines in file order and collects the lines still to come |
| Assistant.Assistant.CheckDueReminders | backend/jarvis.py:144-162 | a missing file changes nothing; otherwise the due messages are spoken in file order and the file is rewritten with the future lines, in order |
| Assistant.Assistant.OpenSiteOrSearch | backend/jarvis.py:103-116 | the loop opens the first site whose key occurs in the text, or a web search, and returns the matching reply |
| Assistant.Assistant.OpenYouTubeSearch | backend/jarvis.py:118-120 | the YouTube search URL for the query is opened and the reply returned |
| Assistant.Assistant.HandleCommand | backend/jarvis.py:166-219 | the reply is the routed intent's reply and, except for the empty command, exactly the string spoken. The files and the browser log change as the intent asks, and not otherwise |

## Left out

- The text-to-speech engine and its thread (backend/jarvis.py:46-53): `speak` is only "record the text and return it".
- The `timer` thread of `schedule_reminder` (backend/jarvis.py:137-141), which speaks the reminder again after a sleep: a concurrent, clock-driven action. Only the file line and the reply are modelled.
- Speech recognition, `sounddevice` and engine setup (backend/jarvis.py:16-18, 28-35): hardware.
- `internet_ok`, the HTTP part of `get_weather`, `wiki_summary` and `pyjokes.get_joke` (backend/jarvis.py:65-101, 217): network and foreign libraries. Their replies are the functions of `Services`.
- Environment variables and `load_dotenv` (backend/jarvis.py:22, 73-77): they only matter inside `get_weather`.
- `webbrowser.open` (backend/jarvis.py:113, 115, 119): only the URL is recorded.
- `datetime.now()`, `strftime`, `isoformat` and `fromisoformat` (backend/jarvis.py:132, 154, 177, 179): `now` is a parameter. Timestamps are decimal microsecond counts, not ISO text. The clock and calendar replies are `Services` functions.
- Unicode: `lower()`, `\s`, `\w`, `\d`, `\b` and `int()` are modelled on ASCII only.
- `int()` rejects digit strings longer than 4300 characters by default; the model reads any length.
- Exceptions other than the date overflow (a failing disk write, a file that cannot be decoded): I/O errors.
- The unlocked read-modify-write of `reminders.txt` by the sweep and by `schedule_reminder`: concurrency.
- `backend/app.py`, the Flask server, is not part of this model. It calls `remove_wake` only when "jarvis" occurs in the text, ignoring case (so "JARVIS" counts too), and otherwise passes the raw text on. So `Router.Route` is stated for every string, clean or not.
- A carriage return inside a reminder message is written as it is. It ends the line when the file is read back in text mode, so the message is cut there and the rest of the line is dropped as malformed. `Assistant.RemindCommandIsSwept` assumes a message without one.
