/**
 * The pure parts of the library page: `formatDuration`, the duration
 * badge, the results line, the grid and empty-state choice, and the link
 * each card leads to.
 */
module Home {
  import opened Wrappers
  import opened Text
  import opened Clock
  import opened Recommend
  import Player

  /** `formatDuration` of the library page; a missing duration (undefined, null or NaN) is None. */
  function FormatDuration(seconds: Option<nat>): string {
    if seconds.None? || seconds.value == 0 then "0:00"
    else
      var f := DurationFields(seconds.value);
      var paddedMins := PadStart2(NatToString(f.minutes));
      var paddedSecs := PadStart2(NatToString(f.secs));
      if f.hours > 0 then NatToString(f.hours) + ":" + paddedMins + ":" + paddedSecs
      else NatToString(f.minutes) + ":" + paddedSecs
  }

  /**
   * What `{video.duration && (...)}` renders: nothing for a missing
   * duration, the bare number 0 for a zero one (React prints a falsy
   * number), and the badge for any other.
   */
  datatype BadgeSlot = Nothing | BareZero | Badge(text: string)

  /** The duration badge slot of one card. */
  function DurationBadge(duration: Option<nat>): BadgeSlot {
    if duration.None? then Nothing
    else if duration.value == 0 then BareZero
    else Badge(FormatDuration(duration))
  }

  /** What the page renders from: the fetched videos, the search box, and the request state. */
  datatype View = View(videos: seq<ListedVideo>, search: string, isLoading: bool, error: Option<string>)

  /** The results line above the grid. */
  function ResultsLine(v: View): Option<string> {
    var n := |v.videos|;
    if !v.isLoading && v.error.None? && v.search != "" && n > 0 then
      Some("Found " + NatToString(n) + " " + (if n == 1 then "video" else "videos") + " for \"" + v.search + "\"")
    else None
  }

  /** The grid of cards is rendered. */
  predicate ShowsGrid(v: View) {
    !v.isLoading && v.error.None? && |v.videos| > 0
  }

  datatype EmptyState = EmptyState(heading: string, message: string)

  /** The empty state: which heading and message appear when nothing was fetched. */
  function EmptyStateOf(v: View): Option<EmptyState> {
    if !v.isLoading && v.error.None? && |v.videos| == 0 then
      Some(if v.search != "" then
             EmptyState("No videos found", "No results for \"" + v.search + "\". Try a different search term.")
           else
             EmptyState("Your library is empty", "No videos available at the moment. Please add videos to your library."))
    else None
  }

  /** The route a card links to. */
  function CardLink(video: ListedVideo): string {
    "/player" + video.video.url
  }

  /** Both pages format a duration the same way. */
  lemma FormatDurationAgrees(seconds: Option<nat>)
    ensures FormatDuration(seconds) == Player.FormatDuration(seconds)
  {
  }

  /**
   * The badge appears exactly for a present, non-zero duration, and its text
   * reads back as that duration; a zero duration leaves a stray "0" on the
   * card instead.
   */
  lemma DurationBadgeReadsBack(duration: Option<nat>)
    ensures DurationBadge(duration).Badge? <==> duration.Some? && duration.value != 0
    ensures DurationBadge(duration).BareZero? <==> duration == Some(0)
    ensures DurationBadge(duration).Badge? ==> ParseDuration(DurationBadge(duration).text) == Some(duration.value)
  {
    if duration.Some? {
      FormatDurationAgrees(duration);
      Player.FormatDurationRoundTrip(duration.value);
    }
  }

  /**
   * With the page settled, exactly one of the grid and the empty state is
   * rendered, and the results line only ever accompanies the grid.
   */
  lemma OneOfGridOrEmpty(v: View)
    ensures !v.isLoading && v.error.None? ==> (ShowsGrid(v) <==> EmptyStateOf(v).None?)
    ensures v.isLoading || v.error.Some? ==> !ShowsGrid(v) && EmptyStateOf(v).None?
    ensures ResultsLine(v).Some? ==> ShowsGrid(v)
  {
  }

  /**
   * The results line counts the videos shown: its number reads back as the
   * count, the noun is singular exactly for one video, and it quotes the
   * search as typed.
   */
  lemma ResultsLineCounts(v: View)
    ensures ResultsLine(v).Some? <==> !v.isLoading && v.error.None? && v.search != "" && |v.videos| > 0
    ensures ResultsLine(v).Some? ==>
      exists digits: string, noun: string ::
        && ResultsLine(v).value == "Found " + digits + " " + noun + " for \"" + v.search + "\""
        && ParseNat(digits) == Some(|v.videos|)
        && (|digits| == 1 || digits[0] != '0')
        && (noun == "video" <==> |v.videos| == 1)
        && (noun == "videos" <==> |v.videos| != 1)
  {
    var n := |v.videos|;
    if ResultsLine(v).Some? {
      ParsePrinted(n);
      var noun := if n == 1 then "video" else "videos";
      assert ResultsLine(v).value == "Found " + NatToString(n) + " " + noun + " for \"" + v.search + "\"";
    }
  }

  /**
   * A search of only whitespace is sent to the server, which treats it as
   * no search and samples the library; when that sample is empty the page
   * still reports "No videos found" rather than an empty library.
   */
  lemma WhitespaceSearchHeading(search: string)
    requires search != "" && AllSpace(search)
    ensures SearchQuery(Given(search)) == Some("")
    ensures EmptyStateOf(View([], search, false, None)).value.heading == "No videos found"
  {
    BlankSearchBrowses(search);
  }

  /**
   * Following a card lands the player on that card's catalog URL, and the
   * player's recommendations then leave that video out.
   */
  lemma CardLinkOpensVideo(video: ListedVideo, fetched: seq<ListedVideo>)
    ensures Player.VideoPathOf(CardLink(video)) == video.video.url
    ensures video !in Player.Recommendations(fetched, Player.VideoPathOf(CardLink(video)))
  {
    ReplaceFirstCases(CardLink(video), "/player", "");
    assert CardLink(video)[|"/player"|..] == video.video.url;
    Player.RecommendationsShape(fetched, video.video.url);
  }
}
