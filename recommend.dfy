/**
 * The GET /api/videos handler of the backend, `getRecommendedVideos`:
 * scan, select by search or at random, then attach a thumbnail to every
 * selected entry.
 */
module Recommend {
  import opened Wrappers
  import opened Text
  import opened Seqs
  import opened Catalog
  import opened Thumbnails

  /** One element of the response: the catalog entry, spread, plus `thumbnailUrl` (null when there is none). */
  datatype ListedVideo = ListedVideo(video: VideoEntry, thumbnailUrl: Option<string>)

  /** The JSON the handler sends: `{videos: [...]}`, or status 500 with an error message. */
  datatype Response = Videos(videos: seq<ListedVideo>) | ServerError(status: nat, error: string)

  /** How many entries browse mode keeps after shuffling. */
  const BrowseCount: nat := 10

  /**
   * The `search` query parameter as Express parses it: absent, one string,
   * or a structured value (an array when the parameter is repeated, an
   * object when it is written with brackets).
   */
  datatype SearchParam = Absent | Given(text: string) | Structured

  /**
   * `req.query.search?.toLowerCase().trim() || ''`: an absent parameter is
   * the empty query, and a structured one has no `toLowerCase`, so the
   * expression throws (None).
   */
  function SearchQuery(search: SearchParam): Option<string> {
    match search
    case Absent => Some("")
    case Given(s) => Some(Trim(LowerCase(s)))
    case Structured => None
  }

  /** The search test: the lower-cased title contains the query. */
  predicate TitleMatches(query: string, v: VideoEntry) {
    Includes(LowerCase(v.title), query)
  }

  /**
   * The selection: with a query, the matching entries in scan order; with
   * none, the first ten of the shuffled catalog. `shuffled` is whatever
   * order the random sort produced.
   */
  function Select(all: seq<VideoEntry>, query: string, shuffled: seq<VideoEntry>): seq<VideoEntry>
    requires multiset(shuffled) == multiset(all)
  {
    if query != "" then Filter(all, v => TitleMatches(query, v)) else Take(shuffled, BrowseCount)
  }

  /**
   * Search mode: an entry is selected exactly when it is in the catalog and
   * its lower-cased title contains the query, as often as it is in the
   * catalog, in catalog order; there is no cap, so when every entry
   * matches all of them are returned.
   */
  lemma SearchSelectsMatches(all: seq<VideoEntry>, query: string, shuffled: seq<VideoEntry>, v: VideoEntry)
    requires multiset(shuffled) == multiset(all)
    requires query != ""
    ensures v in Select(all, query, shuffled) <==> v in all && TitleMatches(query, v)
    ensures multiset(Select(all, query, shuffled))[v] == if TitleMatches(query, v) then multiset(all)[v] else 0
    ensures IsSubsequence(Select(all, query, shuffled), all)
    ensures (forall k :: 0 <= k < |all| ==> TitleMatches(query, all[k])) ==> Select(all, query, shuffled) == all
  {
    var keep := (w: VideoEntry) => TitleMatches(query, w);
    FilterMembers(all, keep, v);
    FilterIsSubsequence(all, keep);
    if forall k :: 0 <= k < |all| ==> TitleMatches(query, all[k]) {
      FilterKeepsAll(all, keep);
    }
  }

  /**
   * Browse mode: at most ten entries, exactly ten when the catalog has that
   * many, each taken from the catalog no more often than it occurs there,
   * so a duplicate-free catalog gives a duplicate-free selection.
   */
  lemma BrowseSelectsSample(all: seq<VideoEntry>, shuffled: seq<VideoEntry>)
    requires multiset(shuffled) == multiset(all)
    ensures |Select(all, "", shuffled)| == if |all| < BrowseCount then |all| else BrowseCount
    ensures multiset(Select(all, "", shuffled)) <= multiset(all)
    ensures Distinct(all) ==> Distinct(Select(all, "", shuffled))
  {
    assert |shuffled| == |multiset(shuffled)| == |all|;
    TakeSubMultiset(shuffled, BrowseCount);
    if Distinct(all) {
      PermutationPrefixDistinct(all, shuffled, BrowseCount);
    }
  }

  /**
   * For a catalog scanned from a well-formed tree, whatever the query and
   * however the shuffle falls, the selection lists no entry twice.
   */
  lemma ScannedSelectionDistinct(root: seq<Node>, query: string, shuffled: seq<VideoEntry>)
    requires WellFormed(root)
    requires multiset(shuffled) == multiset(Scan(root))
    ensures Distinct(Select(Scan(root), query, shuffled))
  {
    var all := Scan(root);
    ScanDistinct(root);
    if query != "" {
      FilterDistinct(all, v => TitleMatches(query, v));
    } else {
      BrowseSelectsSample(all, shuffled);
    }
  }

  /** A query made only of whitespace, or no query at all, means browse mode. */
  lemma BlankSearchBrowses(s: string)
    requires AllSpace(s)
    ensures SearchQuery(Given(s)) == Some("") && SearchQuery(Absent) == Some("")
  {
    var low := LowerCase(s);
    assert AllSpace(low) by {
      forall k | 0 <= k < |low| ensures IsSpace(low[k]) {
        assert low[k] == Lower(s[k]);
      }
    }
    TrimEmptyIffAllSpace(low);
  }

  /**
   * The `Promise.all` over the selection, read sequentially: each entry in
   * turn gets generateThumbnail's result, against the thumbnail files left
   * by the entries before it. Gives the listed entries and the files after.
   */
  function Attach(files: set<string>, selected: seq<VideoEntry>, extractionSucceeds: string -> bool)
    : (seq<ListedVideo>, set<string>)
    decreases |selected|
  {
    if selected == [] then ([], files)
    else
      var o := Generate(files, selected[0].relativePath, extractionSucceeds(selected[0].relativePath));
      var rest := Attach(o.files, selected[1..], extractionSucceeds);
      ([ListedVideo(selected[0], o.url)] + rest.0, rest.1)
  }

  /**
   * The cache names extraction is started for, in order: each selected
   * entry whose cache file is missing when its turn comes.
   */
  function Extractions(files: set<string>, selected: seq<VideoEntry>, extractionSucceeds: string -> bool): seq<string>
    decreases |selected|
  {
    if selected == [] then []
    else
      var o := Generate(files, selected[0].relativePath, extractionSucceeds(selected[0].relativePath));
      (if o.extracted then [ThumbnailName(selected[0].relativePath)] else []) + Extractions(o.files, selected[1..], extractionSucceeds)
  }

  /**
   * The map from position `i` on: that entry's outcome, then the map of the
   * rest on the files it leaves, for the listing, the files and the
   * extraction log alike.
   */
  lemma MapStep(files: set<string>, selected: seq<VideoEntry>, i: nat, extractionSucceeds: string -> bool)
    requires i < |selected|
    ensures var o := Generate(files, selected[i].relativePath, extractionSucceeds(selected[i].relativePath));
      var rest := Attach(o.files, selected[i + 1..], extractionSucceeds);
      && Attach(files, selected[i..], extractionSucceeds) == ([ListedVideo(selected[i], o.url)] + rest.0, rest.1)
      && Extractions(files, selected[i..], extractionSucceeds)
         == (if o.extracted then [ThumbnailName(selected[i].relativePath)] else []) + Extractions(o.files, selected[i + 1..], extractionSucceeds)
  {
    assert selected[i..][0] == selected[i] && selected[i..][1..] == selected[i + 1..];
  }

  /**
   * Extraction starts no more often than there are selected entries, and
   * only for the cache name of a selected entry whose file was not there
   * before.
   */
  lemma {:induction false} ExtractionsAreMisses(files: set<string>, selected: seq<VideoEntry>, extractionSucceeds: string -> bool)
    ensures |Extractions(files, selected, extractionSucceeds)| <= |selected|
    ensures forall n :: n in Extractions(files, selected, extractionSucceeds) ==>
      n !in files && exists k :: 0 <= k < |selected| && n == ThumbnailName(selected[k].relativePath)
    decreases |selected|
  {
    if selected != [] {
      var o := Generate(files, selected[0].relativePath, extractionSucceeds(selected[0].relativePath));
      ExtractionsAreMisses(o.files, selected[1..], extractionSucceeds);
      forall n | n in Extractions(o.files, selected[1..], extractionSucceeds)
        ensures n !in files && exists k :: 0 <= k < |selected| && n == ThumbnailName(selected[k].relativePath)
      {
        var k :| 0 <= k < |selected[1..]| && n == ThumbnailName(selected[1..][k].relativePath);
        assert selected[1..][k] == selected[k + 1];
      }
    }
  }

  /** The cache names of the selected entries whose extraction would succeed. */
  function Extractable(selected: seq<VideoEntry>, extractionSucceeds: string -> bool): set<string> {
    set k | 0 <= k < |selected| && extractionSucceeds(selected[k].relativePath) :: ThumbnailName(selected[k].relativePath)
  }

  /**
   * The response has one element per selected entry, in order, each the
   * entry itself plus a thumbnail URL that is either the entry's own cache
   * address or null; null only when the cache file was missing and
   * extraction failed. Afterwards the thumbnail directory holds what it
   * held plus the cache file of every entry whose extraction succeeds.
   */
  lemma {:induction false} AttachShape(files: set<string>, selected: seq<VideoEntry>, extractionSucceeds: string -> bool)
    ensures var (listed, after) := Attach(files, selected, extractionSucceeds);
      && |listed| == |selected|
      && (forall k :: 0 <= k < |listed| ==> listed[k].video == selected[k])
      && (forall k :: 0 <= k < |listed| && listed[k].thumbnailUrl.Some? ==>
            listed[k].thumbnailUrl.value == ThumbnailUrl(ThumbnailName(selected[k].relativePath)))
      && (forall k :: 0 <= k < |listed| && listed[k].thumbnailUrl.None? ==>
            !extractionSucceeds(selected[k].relativePath) && ThumbnailName(selected[k].relativePath) !in files)
      && after == files + Extractable(selected, extractionSucceeds)
    decreases |selected|
  {
    if selected != [] {
      var rel := selected[0].relativePath;
      var o := Generate(files, rel, extractionSucceeds(rel));
      AttachShape(o.files, selected[1..], extractionSucceeds);
      var (listed, after) := Attach(files, selected, extractionSucceeds);
      var rest := Attach(o.files, selected[1..], extractionSucceeds);
      assert listed == [ListedVideo(selected[0], o.url)] + rest.0;
      forall k | 1 <= k < |listed|
        ensures listed[k] == rest.0[k - 1] && selected[k] == selected[1..][k - 1]
      {
      }
      ExtractableCons(selected, extractionSucceeds);
    }
  }

  /** The extractable cache names of a selection: the first entry's, if it succeeds, and those of the rest. */
  lemma ExtractableCons(selected: seq<VideoEntry>, extractionSucceeds: string -> bool)
    requires selected != []
    ensures Extractable(selected, extractionSucceeds)
         == (if extractionSucceeds(selected[0].relativePath) then {ThumbnailName(selected[0].relativePath)} else {})
          + Extractable(selected[1..], extractionSucceeds)
  {
    var rel := selected[0].relativePath;
    var tail := Extractable(selected[1..], extractionSucceeds);
    var whole := Extractable(selected, extractionSucceeds);
    forall n | n in whole ensures n in (if extractionSucceeds(rel) then {ThumbnailName(rel)} else {}) + tail {
      var k :| 0 <= k < |selected| && extractionSucceeds(selected[k].relativePath) && n == ThumbnailName(selected[k].relativePath);
      if k > 0 { assert selected[1..][k - 1] == selected[k]; }
    }
    forall n | n in tail ensures n in whole {
      var k :| 0 <= k < |selected[1..]| && extractionSucceeds(selected[1..][k].relativePath) && n == ThumbnailName(selected[1..][k].relativePath);
      assert selected[k + 1] == selected[1..][k];
    }
    if extractionSucceeds(rel) {
      assert ThumbnailName(selected[0].relativePath) in whole;
    }
  }

  /**
   * The map of the handler over the selection, on the one thumbnail
   * directory the calls share.
   */
  method AttachThumbnails(cache: ThumbnailCache, selected: seq<VideoEntry>, extractionSucceeds: string -> bool)
    returns (listed: seq<ListedVideo>)
    modifies cache
    ensures (listed, cache.files) == Attach(old(cache.files), selected, extractionSucceeds)
    ensures cache.extractions == old(cache.extractions) + Extractions(old(cache.files), selected, extractionSucceeds)
  {
    listed := [];
    var i := 0;
    while i < |selected|
      invariant 0 <= i <= |selected|
      invariant listed + Attach(cache.files, selected[i..], extractionSucceeds).0
             == Attach(old(cache.files), selected, extractionSucceeds).0
      invariant Attach(cache.files, selected[i..], extractionSucceeds).1
             == Attach(old(cache.files), selected, extractionSucceeds).1
      invariant cache.extractions + Extractions(cache.files, selected[i..], extractionSucceeds)
             == old(cache.extractions) + Extractions(old(cache.files), selected, extractionSucceeds)
    {
      var video := selected[i];
      ghost var before, o := cache.extractions, Generate(cache.files, video.relativePath, extractionSucceeds(video.relativePath));
      ghost var started := if o.extracted then [ThumbnailName(video.relativePath)] else [];
      MapStep(cache.files, selected, i, extractionSucceeds);
      var thumbnailUrl := cache.GenerateThumbnail(video.relativePath, extractionSucceeds(video.relativePath));
      assert cache.extractions == before + started;
      ghost var rest := Attach(cache.files, selected[i + 1..], extractionSucceeds);
      AppendStep(listed, [ListedVideo(video, thumbnailUrl)], rest.0);
      AppendStep(before, started, Extractions(cache.files, selected[i + 1..], extractionSucceeds));
      listed := listed + [ListedVideo(video, thumbnailUrl)];
      i := i + 1;
    }
    assert selected[i..] == [];
    assert listed + [] == listed;
    assert cache.extractions + [] == cache.extractions;
  }

  /** The handler answers status 500 exactly when reading the search parameter or scanning the catalog throws. */
  predicate Fails(root: Option<seq<Node>>, search: SearchParam) {
    SearchQuery(search).None? || !Loads(root)
  }

  /**
   * getRecommendedVideos. A structured search parameter, a video directory
   * that cannot be listed, or a name below it that cannot be read gives
   * status 500 and touches nothing; otherwise the response lists the
   * selection of the catalog, each entry with its thumbnail, and an empty
   * selection is the normal response `{videos: []}`. The `limit` parameter
   * is never read. `shuffle` is the random sort: some reordering of what
   * it is given.
   */
  method GetRecommendedVideos(cache: ThumbnailCache, root: Option<seq<Node>>, search: SearchParam,
                              shuffle: seq<VideoEntry> -> seq<VideoEntry>, extractionSucceeds: string -> bool)
    returns (response: Response)
    requires forall s :: multiset(shuffle(s)) == multiset(s)
    modifies cache
    ensures Fails(root, search) ==>
      response == ServerError(500, "Failed to load videos")
      && cache.files == old(cache.files) && cache.extractions == old(cache.extractions)
    ensures !Fails(root, search) ==>
      var all := Scan(root.value);
      var selected := Select(all, SearchQuery(search).value, shuffle(all));
      response == Videos(Attach(old(cache.files), selected, extractionSucceeds).0)
      && cache.files == Attach(old(cache.files), selected, extractionSucceeds).1
      && cache.extractions == old(cache.extractions) + Extractions(old(cache.files), selected, extractionSucceeds)
  {
    var searchQuery := SearchQuery(search);
    if searchQuery.None? {
      return ServerError(500, "Failed to load videos");
    }
    var allVideos := GetAllVideos(root);
    if allVideos.None? {
      return ServerError(500, "Failed to load videos");
    }
    var resultVideos;
    if searchQuery.value != "" {
      resultVideos := Filter(allVideos.value, v => TitleMatches(searchQuery.value, v));
    } else {
      resultVideos := Take(shuffle(allVideos.value), BrowseCount);
    }
    var videosWithThumbnails := AttachThumbnails(cache, resultVideos, extractionSucceeds);
    response := Videos(videosWithThumbnails);
  }
}
