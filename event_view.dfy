/**
 * The view model of the regeneration job: how a grouped event becomes the record the page
 * templates read, which events are upcoming and which are past, which upcoming event is
 * announced as the next broadcast, and which partial shows a past event.
 */
module EventView {
  import opened Wrappers

  /** A point in time; calendars, time zones and formatting are not modelled. */
  type Instant = int

  /** The event page on the web site that a recording belongs to. */
  datatype VortexEvent = VortexEvent(url: Option<string>, startTime: Option<Instant>, endTime: Option<Instant>)

  /**
   * A YouTube recording as the repository hands it over: what `yt('title')`, `yt('thumbnail')`,
   * `youtubeLink()`, `youtubeLink('embed')`, the first-paragraph description and `upcoming()`
   * return are taken as fields.
   */
  datatype Recording = Recording(
    ytTitle: string,
    ytThumbnail: string,
    youtubeMeta: map<string, string>,
    link: string,
    embedLink: string,
    firstParagraphHtml: string,
    startTime: Option<Instant>,
    endTime: Option<Instant>,
    vortexEvent: Option<VortexEvent>,
    upcoming: bool)

  datatype Playlist = Playlist(link: string)

  /** One grouped event: its recordings (the first is the primary one), public video count, playlist and title. */
  datatype Event = Event(recordings: seq<Recording>, publicVideos: nat, playlist: Option<Playlist>, title: string)

  /** Where the time window shown for an event comes from. */
  datatype TimeSource = VortexWindow(vortex: VortexEvent) | RecordingWindow(recording: Recording)

  datatype FormattedRecording = FormattedRecording(
    title: string,
    when: Recording,
    vortex: Option<VortexEvent>,
    youtube: map<string, string>,
    youtubeLink: string,
    embedLink: string)

  datatype FormattedEvent = FormattedEvent(
    playlist: Option<Playlist>,
    publicVideos: nat,
    title: string,
    when: TimeSource,
    vortex: Option<VortexEvent>,
    youtube: map<string, string>,
    youtubeLink: string,
    embedLink: string,
    recordings: seq<FormattedRecording>,
    thumbnail: string,
    description: string)

  /** The partials of the past-events list. */
  datatype PastTemplate = PastEvent | PastEventMultiple | PastEventPlaylist

  /** What the main template is rendered with. */
  datatype PageArgs = PageArgs(
    nextEvent: Option<FormattedEvent>,
    upcomingEvents: seq<FormattedEvent>,
    pastEvents: seq<FormattedEvent>)

  /** The repository groups recordings into events, so every event has a primary recording. */
  predicate Grouped(events: seq<Event>) {
    forall i :: 0 <= i < |events| ==> events[i].recordings != []
  }

  function FormatRecording(rec: Recording): FormattedRecording {
    FormattedRecording(rec.ytTitle, rec, rec.vortexEvent, rec.youtubeMeta, rec.link, rec.embedLink)
  }

  /** One formatted entry per recording, in the same order, each shown with its own window. */
  function FormatRecordings(recs: seq<Recording>): (r: seq<FormattedRecording>)
    ensures |r| == |recs|
    ensures forall i :: 0 <= i < |recs| ==> r[i] == FormatRecording(recs[i]) && r[i].when == recs[i]
  {
    if recs == [] then [] else [FormatRecording(recs[0])] + FormatRecordings(recs[1..])
  }

  /** Whether the event's time window is taken from its web-site event rather than from the recording. */
  predicate UsesVortexWindow(e: Event)
    requires e.recordings != []
  {
    var p := e.recordings[0];
    p.vortexEvent.Some? &&
    ((|e.recordings| > 1 && p.vortexEvent.value.startTime.Some?) || p.startTime.None? || p.endTime.None?)
  }

  function FormatEvent(e: Event): (r: FormattedEvent)
    requires e.recordings != []
    // The playlist and its link are used exactly when there is more than one public video and a playlist.
    ensures r.playlist.Some? <==> e.publicVideos > 1 && e.playlist.Some?
    ensures r.playlist.Some? ==> r.playlist == e.playlist && r.youtubeLink == e.playlist.value.link
    ensures r.playlist.None? ==> r.youtubeLink == e.recordings[0].link
    // The time window, rule by rule in the order the job applies them.
    ensures |e.recordings| > 1 && e.recordings[0].vortexEvent.Some?
      && e.recordings[0].vortexEvent.value.startTime.Some?
      ==> r.when == VortexWindow(e.recordings[0].vortexEvent.value)
    ensures e.recordings[0].vortexEvent.Some?
      && (e.recordings[0].startTime.None? || e.recordings[0].endTime.None?)
      ==> r.when == VortexWindow(e.recordings[0].vortexEvent.value)
    ensures |e.recordings| == 1 && e.recordings[0].startTime.Some? && e.recordings[0].endTime.Some?
      ==> r.when == RecordingWindow(e.recordings[0])
    ensures e.recordings[0].vortexEvent.None? ==> r.when == RecordingWindow(e.recordings[0])
    ensures r.when.VortexWindow? <==> UsesVortexWindow(e)
    ensures r.when.RecordingWindow? ==> r.when.recording == e.recordings[0]
    // A single recording gives its YouTube title, several give the event's own title.
    ensures |e.recordings| == 1 ==> r.title == e.recordings[0].ytTitle
    ensures |e.recordings| != 1 ==> r.title == e.title
    // The remaining fields come from the primary recording.
    ensures r.vortex == e.recordings[0].vortexEvent && r.youtube == e.recordings[0].youtubeMeta
    ensures r.embedLink == e.recordings[0].embedLink && r.thumbnail == e.recordings[0].ytThumbnail
    ensures r.description == e.recordings[0].firstParagraphHtml && r.publicVideos == e.publicVideos
    ensures |r.recordings| == |e.recordings|
    ensures forall i :: 0 <= i < |e.recordings| ==> r.recordings[i] == FormatRecording(e.recordings[i])
  {
    var recording := e.recordings[0];
    var (youtubeLink, playlist) :=
      if e.publicVideos > 1 && e.playlist.Some? then (e.playlist.value.link, e.playlist)
      else (recording.link, None);
    var when :=
      if |e.recordings| > 1 && recording.vortexEvent.Some? && recording.vortexEvent.value.startTime.Some? then
        VortexWindow(recording.vortexEvent.value)
      else if recording.vortexEvent.Some? && (recording.startTime.None? || recording.endTime.None?) then
        VortexWindow(recording.vortexEvent.value)
      else
        RecordingWindow(recording);
    var title := if |e.recordings| == 1 then recording.ytTitle else e.title;
    FormattedEvent(
      playlist, e.publicVideos, title, when, recording.vortexEvent, recording.youtubeMeta,
      youtubeLink, recording.embedLink, FormatRecordings(e.recordings), recording.ytThumbnail,
      recording.firstParagraphHtml)
  }

  /** Formats a list of events one by one, keeping their order. */
  function FormatEvents(events: seq<Event>): (r: seq<FormattedEvent>)
    requires Grouped(events)
    ensures |r| == |events|
    ensures forall i :: 0 <= i < |events| ==> r[i] == FormatEvent(events[i])
  {
    if events == [] then [] else [FormatEvent(events[0])] + FormatEvents(events[1..])
  }

  /** The partial the past-events list uses for an event. */
  function PastTemplateFor(f: FormattedEvent): (t: PastTemplate)
    ensures t == PastEventPlaylist <==> f.playlist.Some?
    ensures t == PastEventMultiple <==> f.playlist.None? && f.publicVideos > 1
    ensures t == PastEvent <==> f.playlist.None? && f.publicVideos <= 1
  {
    if f.playlist.Some? then PastEventPlaylist
    else if f.publicVideos > 1 then PastEventMultiple
    else PastEvent
  }

  /** On a formatted event the playlist partial is chosen only when there are several public videos. */
  lemma PastTemplateOfEvent(e: Event)
    requires e.recordings != []
    ensures PastTemplateFor(FormatEvent(e)) == PastEventPlaylist <==> e.publicVideos > 1 && e.playlist.Some?
    ensures PastTemplateFor(FormatEvent(e)) == PastEventMultiple <==> e.publicVideos > 1 && e.playlist.None?
    ensures PastTemplateFor(FormatEvent(e)) == PastEvent <==> e.publicVideos <= 1
  {
    var f := FormatEvent(e);
    assert f.playlist.Some? <==> e.publicVideos > 1 && e.playlist.Some?;
  }

  /**
   * The job files an event by its primary recording's flag. Events always have a recording
   * (`Grouped`); one without would be filed as past.
   */
  predicate IsUpcoming(e: Event) {
    e.recordings != [] && e.recordings[0].upcoming
  }

  /** The upcoming events, in the order given. */
  function UpcomingOf(events: seq<Event>): (r: seq<Event>)
    ensures Grouped(r)
  {
    if events == [] then []
    else
      var last := events[|events| - 1];
      UpcomingOf(events[..|events| - 1]) + (if IsUpcoming(last) then [last] else [])
  }

  /** The past events, in the order given. */
  function PastOf(events: seq<Event>): (r: seq<Event>)
    ensures Grouped(events) ==> Grouped(r)
  {
    if events == [] then []
    else
      var last := events[|events| - 1];
      PastOf(events[..|events| - 1]) + (if IsUpcoming(last) then [] else [last])
  }

  /** Every event lands in exactly one of the two lists: together they are a permutation of the input. */
  lemma {:induction false} PartitionIsExact(events: seq<Event>)
    ensures multiset(UpcomingOf(events)) + multiset(PastOf(events)) == multiset(events)
  {
    if events != [] {
      var init, last := events[..|events| - 1], events[|events| - 1];
      PartitionIsExact(init);
      assert events == init + [last];
      PartitionSnoc(init, last);
    }
  }

  /** Each list holds only events of its kind, according to the primary recording. */
  lemma {:induction false} PartitionIsByFlag(events: seq<Event>)
    ensures forall i :: 0 <= i < |UpcomingOf(events)| ==> IsUpcoming(UpcomingOf(events)[i])
    ensures forall i :: 0 <= i < |PastOf(events)| ==> !IsUpcoming(PastOf(events)[i])
  {
    if events != [] {
      var init := events[..|events| - 1];
      PartitionIsByFlag(init);
    }
  }

  /** Some event is upcoming exactly when the upcoming list is not empty. */
  lemma {:induction false} UpcomingNonEmpty(events: seq<Event>)
    ensures UpcomingOf(events) != [] <==> exists i :: 0 <= i < |events| && IsUpcoming(events[i])
  {
    if events != [] {
      var init := events[..|events| - 1];
      assert events == init + [events[|events| - 1]];
      PartitionSnoc(init, events[|events| - 1]);
      UpcomingNonEmpty(init);
      if exists i :: 0 <= i < |init| && IsUpcoming(init[i]) {
        var i :| 0 <= i < |init| && IsUpcoming(init[i]);
        assert events[i] == init[i];
      }
      if exists i :: 0 <= i < |events| && IsUpcoming(events[i]) {
        var i :| 0 <= i < |events| && IsUpcoming(events[i]);
        if i < |init| {
          assert init[i] == events[i];
        }
      }
    }
  }

  /** Both lists keep the given order: partitioning a concatenation concatenates the partitions. */
  lemma {:induction false} PartitionKeepsOrder(xs: seq<Event>, ys: seq<Event>)
    ensures UpcomingOf(xs + ys) == UpcomingOf(xs) + UpcomingOf(ys)
    ensures PastOf(xs + ys) == PastOf(xs) + PastOf(ys)
    decreases |ys|
  {
    if ys == [] {
      assert xs + ys == xs;
    } else {
      var init, last := ys[..|ys| - 1], ys[|ys| - 1];
      assert ys == init + [last];
      assert xs + ys == (xs + init) + [last];
      PartitionKeepsOrder(xs, init);
      PartitionSnoc(xs + init, last);
      PartitionSnoc(init, last);
      var up, past := if IsUpcoming(last) then [last] else [], if IsUpcoming(last) then [] else [last];
      assert UpcomingOf(xs) + UpcomingOf(init) + up == UpcomingOf(xs) + (UpcomingOf(init) + up);
      assert PastOf(xs) + PastOf(init) + past == PastOf(xs) + (PastOf(init) + past);
    }
  }

  /** Partitioning one more event at the end extends one of the two lists. */
  lemma PartitionSnoc(s: seq<Event>, e: Event)
    ensures UpcomingOf(s + [e]) == UpcomingOf(s) + (if IsUpcoming(e) then [e] else [])
    ensures PastOf(s + [e]) == PastOf(s) + (if IsUpcoming(e) then [] else [e])
  {
    assert (s + [e])[..|s|] == s;
  }

  /** `array_reverse`. */
  function Reverse<T>(s: seq<T>): (r: seq<T>)
    ensures |r| == |s|
    ensures forall i :: 0 <= i < |s| ==> r[i] == s[|s| - 1 - i]
  {
    if s == [] then [] else Reverse(s[1..]) + [s[0]]
  }

  /** The event `i + 2` places from the end of `s`: entry `i` of the list below the next broadcast. */
  function Back(s: seq<Event>, i: nat): Event
    requires i + 2 <= |s|
  {
    s[|s| - 2 - i]
  }

  function Min(a: nat, b: nat): nat {
    if a <= b then a else b
  }

  /**
   * The upcoming events listed below the next one: the upcoming events without the last,
   * reversed and cut to `maxUpcoming`.
   */
  function ShownUpcoming(events: seq<Event>, maxUpcoming: nat): (r: seq<Event>)
    ensures var up := UpcomingOf(events);
      |r| == (if up == [] then 0 else Min(maxUpcoming, |up| - 1))
      && forall i :: 0 <= i < |r| ==> i + 2 <= |up| && r[i] == Back(up, i)
    ensures Grouped(r)
  {
    var up := UpcomingOf(events);
    var rest := if up == [] then [] else up[..|up| - 1];
    Reverse(rest)[..Min(maxUpcoming, |rest|)]
  }

  /**
   * The arguments the page is rendered with. The next broadcast is the last upcoming event;
   * at most `maxUpcoming` further events are listed, entry `i` being the upcoming event `i + 2`
   * places from the end, so the next broadcast is never among them; every past event is
   * listed, in the order given.
   */
  function PageArgsOf(events: seq<Event>, maxUpcoming: nat): (a: PageArgs)
    requires Grouped(events)
    ensures var up := UpcomingOf(events);
      (a.nextEvent.Some? <==> up != [])
      && (up != [] ==> a.nextEvent.value == FormatEvent(up[|up| - 1]))
    ensures var up := UpcomingOf(events);
      |a.upcomingEvents| <= maxUpcoming
      && |a.upcomingEvents| == (if up == [] then 0 else Min(maxUpcoming, |up| - 1))
      && forall i :: 0 <= i < |a.upcomingEvents| ==>
           i + 2 <= |up| && a.upcomingEvents[i] == FormatEvent(Back(up, i))
    ensures var past := PastOf(events);
      |a.pastEvents| == |past| && forall i :: 0 <= i < |past| ==> a.pastEvents[i] == FormatEvent(past[i])
  {
    var up := UpcomingOf(events);
    ListedUpcoming(events, maxUpcoming);
    PageArgs(
      if up == [] then None else Some(FormatEvent(up[|up| - 1])),
      FormatEvents(ShownUpcoming(events, maxUpcoming)),
      FormatEvents(PastOf(events)))
  }

  /** The formatted list of further upcoming events, entry by entry. */
  lemma ListedUpcoming(events: seq<Event>, maxUpcoming: nat)
    requires Grouped(events)
    ensures var up := UpcomingOf(events);
      var listed := FormatEvents(ShownUpcoming(events, maxUpcoming));
      |listed| <= maxUpcoming
      && |listed| == (if up == [] then 0 else Min(maxUpcoming, |up| - 1))
      && forall i :: 0 <= i < |listed| ==>
           i + 2 <= |up| && listed[i] == FormatEvent(Back(up, i))
  {
    FormatPicked(ShownUpcoming(events, maxUpcoming), UpcomingOf(events));
  }

  /** Formatting a list picked from `up` backwards from its last but one event. */
  lemma FormatPicked(shown: seq<Event>, up: seq<Event>)
    requires Grouped(shown)
    requires forall i :: 0 <= i < |shown| ==> i + 2 <= |up| && shown[i] == Back(up, i)
    ensures |FormatEvents(shown)| == |shown|
    ensures forall i :: 0 <= i < |shown| ==>
      i + 2 <= |up| && shown[i].recordings != [] && FormatEvents(shown)[i] == FormatEvent(shown[i])
      && shown[i] == Back(up, i)
  {
  }

  /** `PageArgsOf` computed step by step, the way the job computes it. */
  lemma PageArgsOfParts(events: seq<Event>, maxUpcoming: nat, up: seq<Event>, rest: seq<Event>,
                        next: Option<FormattedEvent>, shown: seq<Event>)
    requires Grouped(events) && up == UpcomingOf(events)
    requires rest == if up == [] then [] else up[..|up| - 1]
    requires up != [] ==> up[|up| - 1].recordings != []
    requires next == if up == [] then None else Some(FormatEvent(up[|up| - 1]))
    requires shown == if |rest| > maxUpcoming then Reverse(rest)[..maxUpcoming] else Reverse(rest)
    ensures Grouped(shown)
    ensures PageArgsOf(events, maxUpcoming) == PageArgs(next, FormatEvents(shown), FormatEvents(PastOf(events)))
  {
    assert shown == ShownUpcoming(events, maxUpcoming);
  }

  /** There is a next broadcast exactly when some event is upcoming. */
  lemma NextEvent(events: seq<Event>, maxUpcoming: nat)
    requires Grouped(events)
    ensures PageArgsOf(events, maxUpcoming).nextEvent.Some?
      <==> exists i :: 0 <= i < |events| && IsUpcoming(events[i])
  {
    UpcomingNonEmpty(events);
  }
}
