/**
 * The thumbnail cache of the backend: `generateThumbnail`. The thumbnail
 * directory is the set of file names it holds; the frame extraction is an
 * outcome the caller supplies.
 */
module Thumbnails {
  import opened Wrappers
  import opened Text

  /** The cache file name for a video: its relative path with every '/' turned into '_', then ".png". */
  function ThumbnailName(videoRelativePath: string): string {
    ReplaceChar(videoRelativePath, '/', '_') + ".png"
  }

  /** The public address of a cached thumbnail. */
  function ThumbnailUrl(thumbnailName: string): string {
    "/videos/thumbnails/" + thumbnailName
  }

  /** What one call of generateThumbnail yields: the URL or null, the thumbnail files afterwards, and whether extraction ran. */
  datatype Outcome = Outcome(url: Option<string>, files: set<string>, extracted: bool)

  /**
   * generateThumbnail, as a function of the thumbnail files before the call
   * and of whether extraction would succeed: an existing file is reused,
   * otherwise extraction runs and either writes the file or yields null.
   */
  function Generate(files: set<string>, videoRelativePath: string, extractionSucceeds: bool): Outcome {
    var name := ThumbnailName(videoRelativePath);
    if name in files then Outcome(Some(ThumbnailUrl(name)), files, false)
    else if extractionSucceeds then Outcome(Some(ThumbnailUrl(name)), files + {name}, true)
    else Outcome(None, files, true)
  }

  /** The thumbnail directory. */
  class ThumbnailCache {
    /** The names of the files in the thumbnail directory. */
    var files: set<string>
    /** The thumbnail names extraction was started for, in order. */
    ghost var extractions: seq<string>

    constructor (existing: set<string>)
      ensures files == existing && extractions == []
    {
      files := existing;
      extractions := [];
    }

    /**
     * generateThumbnail: on a hit the URL comes back with nothing run or
     * written; on a miss extraction runs once, and its success adds the file
     * and yields the same URL while its failure yields null and writes nothing.
     */
    method GenerateThumbnail(videoRelativePath: string, extractionSucceeds: bool) returns (url: Option<string>)
      modifies this
      ensures var name := ThumbnailName(videoRelativePath);
        if name in old(files) then
          url == Some(ThumbnailUrl(name)) && files == old(files) && extractions == old(extractions)
        else if extractionSucceeds then
          url == Some(ThumbnailUrl(name)) && files == old(files) + {name} && extractions == old(extractions) + [name]
        else
          url == None && files == old(files) && extractions == old(extractions) + [name]
      ensures var o := Generate(old(files), videoRelativePath, extractionSucceeds);
        url == o.url && files == o.files
    {
      var thumbnailName := ThumbnailName(videoRelativePath);
      if thumbnailName in files {
        url := Some(ThumbnailUrl(thumbnailName));
      } else {
        extractions := extractions + [thumbnailName];
        if extractionSucceeds {
          files := files + {thumbnailName};
          url := Some(ThumbnailUrl(thumbnailName));
        } else {
          url := None;
        }
      }
    }
  }

  /**
   * The cache name is a plain file name in the thumbnail directory: no '/'
   * is left in it, it ends in ".png", and it is exactly four characters
   * longer than the relative path; each '/' of the path became '_' and
   * every other character is kept.
   */
  lemma ThumbnailNameShape(videoRelativePath: string)
    ensures var name := ThumbnailName(videoRelativePath);
      && '/' !in name
      && |name| == |videoRelativePath| + 4
      && name[|videoRelativePath|..] == ".png"
      && (forall k :: 0 <= k < |videoRelativePath| && videoRelativePath[k] == '/' ==> name[k] == '_')
      && (forall k :: 0 <= k < |videoRelativePath| && videoRelativePath[k] != '/' ==> name[k] == videoRelativePath[k])
  {
    var name := ThumbnailName(videoRelativePath);
    var body := ReplaceChar(videoRelativePath, '/', '_');
    forall k | 0 <= k < |name| ensures name[k] != '/' {
      if k < |body| { assert name[k] == body[k]; }
      else { assert name[k] == ".png"[k - |body|]; }
    }
  }

  /** Whatever the outcome, a returned URL is the address of the video's own cache name. */
  lemma GenerateUrl(files: set<string>, videoRelativePath: string, extractionSucceeds: bool)
    ensures var o := Generate(files, videoRelativePath, extractionSucceeds);
      && (o.url.Some? ==> o.url.value == ThumbnailUrl(ThumbnailName(videoRelativePath)))
      && (o.url.Some? <==> ThumbnailName(videoRelativePath) in o.files)
      && files <= o.files
      && o.files - files <= {ThumbnailName(videoRelativePath)}
  {
  }

  /**
   * Generation is idempotent: once a call has produced a URL, a second call
   * for the same path, whatever extraction would do, returns the same URL,
   * runs nothing and changes nothing.
   */
  lemma GenerateIdempotent(files: set<string>, videoRelativePath: string, first: bool, second: bool)
    requires Generate(files, videoRelativePath, first).url.Some?
    ensures var o1 := Generate(files, videoRelativePath, first);
      Generate(o1.files, videoRelativePath, second) == Outcome(o1.url, o1.files, false)
  {
  }

  /**
   * The cache name does not tell paths apart: a video "b.mp4" in the
   * directory "a" and a video "a_b.mp4" at the root share one cache file.
   */
  lemma ThumbnailNameCollision()
    ensures "a/b.mp4" != "a_b.mp4"
    ensures ThumbnailName("a/b.mp4") == ThumbnailName("a_b.mp4") == "a_b.mp4.png"
  {
    assert ReplaceChar("a/b.mp4", '/', '_') == "a_b.mp4";
    assert ReplaceChar("a_b.mp4", '/', '_') == "a_b.mp4";
  }

  /**
   * The consequence of the collision: once "a/b.mp4" has its thumbnail,
   * "a_b.mp4" is served that same image without extraction being tried.
   */
  lemma CollisionServesOtherThumbnail(files: set<string>, extractionSucceeds: bool)
    requires Generate(files, "a/b.mp4", true).url.Some?
    ensures var o := Generate(Generate(files, "a/b.mp4", true).files, "a_b.mp4", extractionSucceeds);
      o.url == Some(ThumbnailUrl(ThumbnailName("a/b.mp4"))) && !o.extracted
  {
    ThumbnailNameCollision();
  }

  /**
   * Without underscores the cache name does tell paths apart: two relative
   * paths that hold no '_' and share a cache name are the same path.
   */
  lemma ThumbnailNameInjectiveWithoutUnderscore(p: string, q: string)
    requires '_' !in p && '_' !in q
    requires ThumbnailName(p) == ThumbnailName(q)
    ensures p == q
  {
    var bp, bq := ReplaceChar(p, '/', '_'), ReplaceChar(q, '/', '_');
    assert |bp| == |bq|;
    assert bp == ThumbnailName(p)[..|bp|] && bq == ThumbnailName(q)[..|bq|];
    forall k | 0 <= k < |p| ensures p[k] == q[k] {
      assert bp[k] == bq[k];
    }
  }
}
