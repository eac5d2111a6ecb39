/**
 * The assistant's side effects: `speak`, the notes file, the reminders file, the browser, and
 * `handle_command`, which routes a command and carries out what the route asks for.
 *
 * The two files are fields holding their raw text, `None` while the file does not exist. What
 * was said aloud and which URLs were handed to the browser are ghost logs. The clock is the
 * parameter `now`. Everything outside this code -- clock formatting, the weather service,
 * Wikipedia, the joke library -- is a field of `Services`.
 */
module Assistant {
  import opened Options
  import opened Text
  import opened Store
  import opened Router

  /** The services `handle_command` calls and this model does not look into. */
  datatype Services = Services(
    clock: Instant -> string,           // now.strftime('%I:%M %p')
    calendar: Instant -> string,        // now.strftime('%A, %d %B %Y')
    weather: Option<string> -> string,  // get_weather(city)
    wiki: string -> string,             // wiki_summary(topic, sentences=2)
    joke: string)                       // pyjokes.get_joke()

  const NoCommandReply: string := "No command detected."
  const GreetReply: string := "Hello! How can I help?"
  const WellbeingReply: string := "Running at optimal parameters!"
  const ShutdownReply: string := "Shutting down. Goodbye."
  const SavedNoteReply: string := "Saved your note."
  const FallbackReply: string :=
    "Sorry, I didn't catch that. Try saying time, weather, Wikipedia, open, search, play, note, or remind."

  function ReminderSetReply(minutes: nat): string {
    "Reminder set for " + NatToDec(minutes) + " minute(s) from now."
  }

  function TimeReply(clock: string): string {
    "It is " + clock + "."
  }

  function DateReply(day: string): string {
    "Today is " + day + "."
  }

  // ---------------------------------------------------------------------------------------
  // What a command does, as functions of the intent and the state before it

  /** The reply to an intent; `None` when `handle_command` raises instead (the due time of a
      reminder beyond the last representable instant). */
  function Reply(intent: Intent, now: Instant, svc: Services, notes: Option<string>): Option<string> {
    match intent
    case NoCommand => Some(NoCommandReply)
    case Greet => Some(GreetReply)
    case Wellbeing => Some(WellbeingReply)
    case Shutdown => Some(ShutdownReply)
    case Time => Some(TimeReply(svc.clock(now)))
    case Date => Some(DateReply(svc.calendar(now)))
    case Weather(city) => Some(svc.weather(city))
    case Wiki(topic) => Some(svc.wiki(topic))
    case Browse(q) => Some(BrowseReply(q))
    case Play(q) => Some(YouTubeReply(q))
    case Note(_) => Some(SavedNoteReply)
    case ListNotes => Some(NotesListing(notes))
    case Remind(minutes, _) => if DueTime(now, minutes).Some? then Some(ReminderSetReply(minutes)) else None
    case Joke => Some(svc.joke)
    case Fallback => Some(FallbackReply)
  }

  /** The notes file after the intent is carried out. */
  function NotesAfter(intent: Intent, notes: Option<string>): Option<string> {
    if intent.Note? then Some(AppendNote(notes, intent.text)) else notes
  }

  /** The reminders file after the intent is carried out. */
  function RemindersAfter(intent: Intent, now: Instant, reminders: Option<string>): Option<string> {
    if intent.Remind? && DueTime(now, intent.minutes).Some? then
      Some(reminders.GetOr("") + ReminderLine(DueTime(now, intent.minutes).value, intent.message))
    else reminders
  }

  /** The URLs the intent hands to the browser. */
  function UrlsOpened(intent: Intent): seq<string> {
    match intent
    case Browse(q) => [BrowseUrl(q)]
    case Play(q) => [YouTubeUrl(q)]
    case _ => []
  }

  /** A command fails only when it asks for a reminder too far in the future to represent. */
  lemma ReplyFailsOnlyOnOverflow(intent: Intent, now: Instant, svc: Services, notes: Option<string>)
    ensures Reply(intent, now, svc, notes).None?
      <==> intent.Remind? && now + intent.minutes * MicrosPerMinute > MaxInstant
  {
  }

  /** A reminder command whose message has no carriage return, run against a file that ends at a
      line boundary, adds one line to it; a later sweep announces exactly that message once the
      due time has come, and keeps the line until then. */
  lemma RemindCommandIsSwept(cmd: string, now: Instant, reminders: Option<string>, later: Instant)
    requires Route(cmd).Remind? && '\r' !in Route(cmd).message
    requires DueTime(now, Route(cmd).minutes).Some? && Terminated(reminders.GetOr(""))
    ensures var ls, due := ReadLines(reminders.GetOr("")), DueTime(now, Route(cmd).minutes).value;
      var line := ReminderLine(due, Route(cmd).message);
      var after := ReadLines(RemindersAfter(Route(cmd), now, reminders).value);
      && after == ls + [line]
      && Announcements(after, later)
           == Announcements(ls, later) + (if due <= later then ["Reminder: " + Route(cmd).message] else [])
      && Pending(after, later) == Pending(ls, later) + (if due <= later then [] else [line])
  {
    RemindIntent(cmd);
    RemindMessageShape(cmd);
    var m := Route(cmd).message;
    ScheduledLineIsSwept(reminders.GetOr(""), DueTime(now, Route(cmd).minutes).value, m, later);
  }

  // ---------------------------------------------------------------------------------------
  // The assistant

  class Assistant {
    /** notes.txt */
    var notesFile: Option<string>
    /** reminders.txt */
    var remindersFile: Option<string>
    /** Everything `speak` was given, in order. */
    ghost var spoken: seq<string>
    /** Every URL handed to `webbrowser.open`, in order. */
    ghost var browsed: seq<string>

    constructor(notes: Option<string>, reminders: Option<string>)
      ensures notesFile == notes && remindersFile == reminders && spoken == [] && browsed == []
    {
      notesFile := notes;
      remindersFile := reminders;
      spoken := [];
      browsed := [];
    }

    /** `speak`: says the text and returns it unchanged. */
    method Speak(text: string) returns (r: string)
      modifies this
      ensures r == text && spoken == old(spoken) + [text]
      ensures notesFile == old(notesFile) && remindersFile == old(remindersFile) && browsed == old(browsed)
    {
      spoken := spoken + [text];
      r := text;
    }

    /** `save_note`: rewrites notes.txt as what it read, the note and a line feed. */
    method SaveNote(text: string) returns (r: string)
      modifies this
      ensures r == SavedNoteReply && notesFile == Some(AppendNote(old(notesFile), text))
      ensures remindersFile == old(remindersFile) && spoken == old(spoken) && browsed == old(browsed)
    {
      notesFile := Some(AppendNote(notesFile, text));
      r := SavedNoteReply;
    }

    /** `list_notes`. */
    method ListNotes() returns (r: string)
      ensures r == NotesListing(notesFile)
    {
      if notesFile.None? {
        r := NoNotesReply;
      } else {
        r := NotesHeader + Translate(notesFile.value);
      }
    }

    /** `schedule_reminder`: appends one line for the due time and the message; `None` when the
        due time cannot be represented, in which case nothing is written. */
    method ScheduleReminder(msg: string, minutes: nat, now: Instant) returns (r: Option<string>)
      modifies this
      ensures r.Some? <==> DueTime(now, minutes).Some?
      ensures r.Some? ==> (r.value == ReminderSetReply(minutes)
        && remindersFile == Some(old(remindersFile).GetOr("") + ReminderLine(DueTime(now, minutes).value, msg)))
      ensures r.None? ==> remindersFile == old(remindersFile)
      ensures notesFile == old(notesFile) && spoken == old(spoken) && browsed == old(browsed)
    {
      var due := DueTime(now, minutes);
      if due.None? {
        return None;
      }
      remindersFile := Some(remindersFile.GetOr("") + ReminderLine(due.value, msg));
      r := Some(ReminderSetReply(minutes));
    }

    /** One step of `check_due_reminders`: announces `line` when it is well formed and due, and
        returns what of it goes back to the file. */
    method SweepLine(line: string, now: Instant) returns (kept: seq<string>)
      modifies this
      ensures kept == Keep(line, now) && spoken == old(spoken) + Announce(line, now)
      ensures notesFile == old(notesFile) && remindersFile == old(remindersFile) && browsed == old(browsed)
    {
      kept := [];
      match ParseLine(line) {
        case Some(e) =>
          if now >= e.due {
            var _ := Speak(ReminderPrefix + e.message);
          } else {
            kept := [line];
          }
        case None =>
      }
    }

    /** The loop of `check_due_reminders`: sweeps `lines` in order and returns the lines still to come. */
    method SweepLines(lines: seq<string>, now: Instant) returns (remaining: seq<string>)
      modifies this
      ensures remaining == Pending(lines, now) && spoken == old(spoken) + Announcements(lines, now)
      ensures notesFile == old(notesFile) && remindersFile == old(remindersFile) && browsed == old(browsed)
    {
      remaining := [];
      var i := 0;
      while i < |lines|
        invariant 0 <= i <= |lines|
        invariant remaining == Pending(lines[..i], now)
        invariant spoken == old(spoken) + Announcements(lines[..i], now)
        invariant notesFile == old(notesFile) && browsed == old(browsed) && remindersFile == old(remindersFile)
      {
        SweepStep(lines, i, now);
        AppendAssoc(old(spoken), Announcements(lines[..i], now), Announce(lines[i], now));
        var kept := SweepLine(lines[i], now);
        remaining := remaining + kept;
        i := i + 1;
      }
      assert lines[..i] == lines;
    }

    /** `check_due_reminders`: reads the lines, announces each well-formed line that is due, and
        rewrites the file with the well-formed lines still to come. */
    method CheckDueReminders(now: Instant)
      modifies this
      ensures old(remindersFile).None? ==> remindersFile == None && spoken == old(spoken)
      ensures old(remindersFile).Some? ==>
        var ls := ReadLines(old(remindersFile).value);
        spoken == old(spoken) + Announcements(ls, now) && remindersFile == Some(Concat(Pending(ls, now)))
      ensures notesFile == old(notesFile) && browsed == old(browsed)
    {
      if remindersFile.None? {
        return;
      }
      var remaining := SweepLines(ReadLines(remindersFile.value), now);
      remindersFile := Some(Concat(remaining));
    }

    /** `open_site_or_search`: opens the first site of the table whose key occurs in `text`, or
        else a web search for `text`. */
    method OpenSiteOrSearch(text: string) returns (r: string)
      modifies this
      ensures r == BrowseReply(text) && browsed == old(browsed) + [BrowseUrl(text)]
      ensures notesFile == old(notesFile) && remindersFile == old(remindersFile) && spoken == old(spoken)
    {
      var i := 0;
      while i < |Sites|
        invariant 0 <= i <= |Sites|
        invariant forall j :: 0 <= j < i ==> !Contains(text, Sites[j].key)
        invariant browsed == old(browsed)
        invariant notesFile == old(notesFile) && remindersFile == old(remindersFile) && spoken == old(spoken)
      {
        var site := Sites[i];
        if Contains(text, site.key) {
          BrowseOpensFirstKey(text, i);
          browsed := browsed + [site.url];
          return OpeningReply(site.key);
        }
        i := i + 1;
      }
      BrowseSearchesWithoutKey(text);
      browsed := browsed + [SearchUrlPrefix + text];
      r := SearchReply(text);
    }

    /** `open_youtube_search`. */
    method OpenYouTubeSearch(q: string) returns (r: string)
      modifies this
      ensures r == YouTubeReply(q) && browsed == old(browsed) + [YouTubeUrl(q)]
      ensures notesFile == old(notesFile) && remindersFile == old(remindersFile) && spoken == old(spoken)
    {
      browsed := browsed + [YouTubeUrl(q)];
      r := YouTubeReply(q);
    }

    /** `handle_command`: routes the command, carries out its intent and speaks the reply, which
        is also what it returns; only "No command detected." is returned without being spoken.
        `None` stands for the exception a reminder too far in the future raises, and then
        nothing has changed. */
    method HandleCommand(cmd: string, now: Instant, svc: Services) returns (r: Option<string>)
      modifies this
      ensures r == Reply(Route(cmd), now, svc, old(notesFile))
      ensures r.Some? && cmd != [] ==> spoken == old(spoken) + [r.value]
      ensures r.None? || cmd == [] ==> spoken == old(spoken)
      ensures notesFile == NotesAfter(Route(cmd), old(notesFile))
      ensures remindersFile == RemindersAfter(Route(cmd), now, old(remindersFile))
      ensures browsed == old(browsed) + UrlsOpened(Route(cmd))
    {
      RouteEnds(cmd);
      var reply: string;
      match Route(cmd) {
        case NoCommand =>
          return Some(NoCommandReply);
        case Greet =>
          reply := GreetReply;
        case Wellbeing =>
          reply := WellbeingReply;
        case Shutdown =>
          reply := ShutdownReply;
        case Time =>
          reply := TimeReply(svc.clock(now));
        case Date =>
          reply := DateReply(svc.calendar(now));
        case Weather(city) =>
          reply := svc.weather(city);
        case Wiki(topic) =>
          reply := svc.wiki(topic);
        case Browse(q) =>
          reply := OpenSiteOrSearch(q);
        case Play(q) =>
          reply := OpenYouTubeSearch(q);
        case Note(x) =>
          reply := SaveNote(x);
        case ListNotes =>
          reply := this.ListNotes();
        case Remind(minutes, message) =>
          var scheduled := ScheduleReminder(message, minutes, now);
          if scheduled.None? {
            return None;
          }
          reply := scheduled.value;
        case Joke =>
          reply := svc.joke;
        case Fallback =>
          reply := FallbackReply;
      }
      var said := Speak(reply);
      r := Some(said);
    }
  }
}
