/**
 * The regeneration job: it fetches the live-broadcast page over WebDAV, checks its markers,
 * renders the event list and writes the page back only when the merged body differs.
 */
module VortexJob {
  import opened Wrappers
  import opened Markers
  import opened PageMerge
  import opened EventView

  /** A WebDAV resource: the page body and the properties the job carries over untouched. */
  datatype Resource = Resource(content: string, otherProperties: map<string, string>)

  /** The remote pages and the log of the writes made to them. */
  class WebdavClient {
    var pages: map<string, Resource>
    var puts: seq<(string, Resource)>

    constructor(pages: map<string, Resource>)
      ensures this.pages == pages && puts == []
    {
      this.pages := pages;
      puts := [];
    }

    /** Reads a page; a page that is not there is `None`. */
    method Get(url: string) returns (r: Option<Resource>)
      ensures url in pages <==> r.Some?
      ensures r.Some? ==> r.value == pages[url]
    {
      if url in pages {
        r := Some(pages[url]);
      } else {
        r := None;
      }
    }

    /** Writes a page, replacing what was there, and records the write. */
    method Put(url: string, body: Resource)
      modifies this
      ensures pages == old(pages)[url := body]
      ensures puts == old(puts) + [(url, body)]
    {
      pages := pages[url := body];
      puts := puts + [(url, body)];
    }
  }

  const DefaultUrl := "https://www.ub.uio.no/kurs-arrangement/live/index.html"

  /** How a run of the job ends. */
  datatype Outcome =
    | FetchFailed
    | Failed(error: MarkerError)
    | Printed(output: string)
    | Updated(content: string)
    | Unchanged

  class GenerateVortexHtmlJob {
    var url: string
    /** Print the fragment instead of saving the page. */
    var stdout: bool
    /** How many upcoming events are listed after the next broadcast. */
    var maxUpcoming: nat

    constructor(stdout: bool)
      ensures url == DefaultUrl && this.stdout == stdout && maxUpcoming == 4
    {
      url := DefaultUrl;
      this.stdout := stdout;
      maxUpcoming := 4;
    }

    /**
     * Files the events as upcoming or past, takes the last upcoming one as the next
     * broadcast, lists the rest in reverse repository order up to `maxUpcoming`, and renders
     * the page.
     */
    method GenerateHtml(events: seq<Event>, render: PageArgs -> string) returns (html: string)
      requires Grouped(events)
      ensures html == render(PageArgsOf(events, maxUpcoming))
    {
      var upcomingEvents: seq<Event> := [];
      var pastEvents: seq<Event> := [];
      for i := 0 to |events|
        invariant upcomingEvents == UpcomingOf(events[..i])
        invariant pastEvents == PastOf(events[..i])
      {
        assert events[..i + 1][..i] == events[..i];
        if events[i].recordings[0].upcoming {
          upcomingEvents := upcomingEvents + [events[i]];
        } else {
          pastEvents := pastEvents + [events[i]];
        }
      }
      assert events[..|events|] == events;
      ghost var up := upcomingEvents;
      var nextEvent: Option<FormattedEvent> := None;
      if |upcomingEvents| > 0 {
        var event := upcomingEvents[|upcomingEvents| - 1];
        upcomingEvents := upcomingEvents[..|upcomingEvents| - 1];
        nextEvent := Some(FormatEvent(event));
      }
      var shown := Reverse(upcomingEvents);
      if |shown| > maxUpcoming {
        shown := shown[..maxUpcoming];
      }
      PageArgsOfParts(events, maxUpcoming, up, upcomingEvents, nextEvent, shown);
      var args := PageArgs(nextEvent, FormatEvents(shown), FormatEvents(pastEvents));
      html := render(args);
    }

    /**
     * One run: fetch the page, require exactly one start marker and one end marker after it,
     * render, and then either print the fragment or splice it between canonical markers and
     * write the page back when it changed.
     */
    method Handle(webdav: WebdavClient, events: seq<Event>, render: PageArgs -> string) returns (outcome: Outcome)
      requires Grouped(events)
      modifies webdav
      ensures outcome.Updated? <==> |webdav.puts| > |old(webdav.puts)|
      ensures url !in old(webdav.pages) ==> outcome == FetchFailed && unchanged(webdav)
      ensures url in old(webdav.pages) ==>
        var body := old(webdav.pages)[url];
        var fragment := render(PageArgsOf(events, maxUpcoming));
        var merged := Merge(body.content, fragment);
        (merged.Failure? ==> outcome == Failed(merged.error) && unchanged(webdav))
        && (merged.Success? && stdout ==> outcome == Printed(fragment + "\n") && unchanged(webdav))
        && (merged.Success? && !stdout && merged.value == body.content ==>
              outcome == Unchanged && unchanged(webdav))
        && (merged.Success? && !stdout && merged.value != body.content ==>
              outcome == Updated(merged.value)
              && webdav.pages == old(webdav.pages)[url := body.(content := merged.value)]
              && webdav.puts == old(webdav.puts) + [(url, body.(content := merged.value))])
    {
      var got := webdav.Get(url);
      if got.None? {
        return FetchFailed;
      }
      var body := got.value;
      var content := body.content;
      var spl := Split(content, StartToken);
      if |spl| != 2 {
        return Failed(StartMarkerNotUnique);
      }
      var spl2 := Split(spl[1], EndToken);
      if |spl2| != 2 {
        return Failed(EndMarkerNotUnique);
      }
      var newContent := GenerateHtml(events, render);
      if stdout {
        return Printed(newContent + "\n");
      }
      newContent := spl[0] + StartMarker + newContent + EndMarker + spl2[1];
      if body.content != newContent {
        body := body.(content := newContent);
        webdav.Put(url, body);
        outcome := Updated(newContent);
      } else {
        outcome := Unchanged;
      }
    }
  }
}
