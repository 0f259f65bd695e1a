/**
 * The pure parts of the player page: the display name derived from the
 * path, `formatDuration`, the recommendation filter and the rename guard.
 */
module Player {
  import opened Wrappers
  import opened Text
  import opened Seqs
  import opened Clock
  import opened Recommend

  /** The catalog URL the page plays: the route path without its "/player" prefix. */
  function VideoPathOf(pathname: string): string {
    ReplaceFirst(pathname, "/player", "")
  }

  /** `videoPath.split('/').pop()`: the text after the last '/'. */
  function LastSegment(videoPath: string): string {
    var parts := Split(videoPath, '/');
    parts[|parts| - 1]
  }

  /** `.replace(/\.[^/.]+$/, '')`: drops a final dot followed by at least one character that is neither '.' nor '/'. */
  function StripExtension(segment: string): string {
    match LastIndexOf(segment, '.')
    case None => segment
    case Some(d) => if d + 1 < |segment| && '/' !in segment[d + 1..] then segment[..d] else segment
  }

  /** `videoName`: the last segment without its extension, or "Video" when that is empty. */
  function VideoName(videoPath: string): string {
    var name := StripExtension(LastSegment(videoPath));
    if name == "" then "Video" else name
  }

  /** The characters the regex class \w matches. */
  predicate IsWordChar(c: char) {
    'a' <= c <= 'z' || 'A' <= c <= 'Z' || '0' <= c <= '9' || c == '_'
  }

  /** Letters and digits: the word characters that survive the separator replacement. */
  predicate IsAlphanumeric(c: char) {
    'a' <= c <= 'z' || 'A' <= c <= 'Z' || '0' <= c <= '9'
  }

  /** `.replace(/[-_]/g, ' ')`. */
  function SpaceSeparators(s: string): string {
    seq(|s|, i requires 0 <= i < |s| => if s[i] == '-' || s[i] == '_' then ' ' else s[i])
  }

  /**
   * `.replace(/\b\w/g, l => l.toUpperCase())`, scanning left to right;
   * `afterWord` says whether the character before `s` is a word character.
   */
  function CapitalizeWords(s: string, afterWord: bool): (r: string)
    ensures |r| == |s|
    decreases |s|
  {
    if s == [] then []
    else [if IsWordChar(s[0]) && !afterWord then Upper(s[0]) else s[0]] + CapitalizeWords(s[1..], IsWordChar(s[0]))
  }

  /** `formattedVideoName`. */
  function FormattedVideoName(videoName: string): string {
    CapitalizeWords(SpaceSeparators(videoName), false)
  }

  /** `formatDuration` of the player page; a missing duration (undefined, null or NaN) is None. */
  function FormatDuration(seconds: Option<nat>): string {
    if seconds.None? || seconds.value == 0 then "0:00"
    else
      var f := DurationFields(seconds.value);
      if f.hours > 0 then
        NatToString(f.hours) + ":" + PadStart2(NatToString(f.minutes)) + ":" + PadStart2(NatToString(f.secs))
      else NatToString(f.minutes) + ":" + PadStart2(NatToString(f.secs))
  }

  /** The recommendations shown: the fetched videos other than the one playing, at most four. */
  function Recommendations(videos: seq<ListedVideo>, videoPath: string): seq<ListedVideo> {
    Take(Filter(videos, (v: ListedVideo) => v.video.url != videoPath), 4)
  }

  /** The body of the rename request. */
  datatype RenameBody = RenameBody(oldPath: string, newName: string)

  /** `handleRename`: a blank name sends nothing; otherwise the trimmed name is sent. */
  function RenameRequest(videoPath: string, newName: string): Option<RenameBody> {
    var trimmedName := Trim(newName);
    if trimmedName == "" then None else Some(RenameBody(videoPath, trimmedName))
  }

  /** No piece of a split holds the separator. */
  lemma {:induction false} SplitPiecesAvoid(s: string, c: char)
    ensures forall k :: 0 <= k < |Split(s, c)| ==> c !in Split(s, c)[k]
    decreases |s|
  {
    if s != [] {
      SplitPiecesAvoid(s[1..], c);
    }
  }

  /** The regex `\.[^/.]+$` matches at `d`. */
  predicate ExtensionAt(segment: string, d: int) {
    0 <= d < |segment| - 1 && segment[d] == '.'
    && forall k :: d < k < |segment| ==> segment[k] != '.' && segment[k] != '/'
  }

  /**
   * StripExtension does what the regex replacement does: where the regex
   * matches, the text from the match on is dropped; where it does not, the
   * segment is unchanged.
   */
  lemma StripExtensionIsRegex(segment: string)
    ensures forall d :: ExtensionAt(segment, d) ==> StripExtension(segment) == segment[..d]
    ensures (forall d :: !ExtensionAt(segment, d)) ==> StripExtension(segment) == segment
  {
    match LastIndexOf(segment, '.')
    case None =>
    case Some(d) =>
      var tail := segment[d + 1..];
      if d + 1 < |segment| && '/' !in tail {
        forall k | d < k < |segment| ensures segment[k] != '.' && segment[k] != '/' {
          assert segment[k] == tail[k - d - 1];
        }
        assert ExtensionAt(segment, d);
      }
      forall e | ExtensionAt(segment, e) ensures e == d && d + 1 < |segment| && '/' !in tail {
        forall j | 0 <= j < |tail| ensures tail[j] != '/' {
          assert tail[j] == segment[d + 1 + j];
        }
      }
  }

  /**
   * The display name never holds a '/', is never empty, and is the last
   * path segment or a prefix of it (only the final extension removed), or
   * "Video".
   */
  lemma VideoNameShape(videoPath: string)
    ensures '/' !in VideoName(videoPath) && VideoName(videoPath) != ""
    ensures VideoName(videoPath) == "Video" || StartsWith(LastSegment(videoPath), VideoName(videoPath))
  {
    var parts := Split(videoPath, '/');
    SplitPiecesAvoid(videoPath, '/');
    assert '/' !in parts[|parts| - 1];
    var seg := LastSegment(videoPath);
    var name := StripExtension(seg);
    assert name == seg || name == seg[..|name|];
    forall k | 0 <= k < |name| ensures name[k] != '/' {
      assert name[k] == seg[k];
    }
  }

  /** Only the final extension of a nested file's name is dropped. */
  lemma VideoNameKeepsInnerDots()
    ensures VideoName("/videos/clip.part1.mp4") == "clip.part1"
  {
    LastSegmentOfJoin(["", "videos", "clip.part1.mp4"]);
    ExamplePath();
    ExampleStripped();
  }

  /** The last segment of a '/'-join of segments without '/' is the last of them. */
  lemma LastSegmentOfJoin(segments: seq<string>)
    requires |segments| > 0
    requires forall k :: 0 <= k < |segments| ==> '/' !in segments[k]
    ensures LastSegment(Join(segments, "/")) == segments[|segments| - 1]
  {
    SplitJoin(segments, '/');
  }

  lemma ExamplePath()
    ensures Join(["", "videos", "clip.part1.mp4"], "/") == "/videos/clip.part1.mp4"
  {
    var parts := ["", "videos", "clip.part1.mp4"];
    assert parts[1..] == ["videos", "clip.part1.mp4"];
    assert parts[1..][1..] == ["clip.part1.mp4"];
    assert Join(parts, "/") == "" + "/" + ("videos" + "/" + "clip.part1.mp4");
  }

  lemma ExampleStripped()
    ensures StripExtension("clip.part1.mp4") == "clip.part1"
  {
    var seg := "clip.part1.mp4";
    assert seg[10] == '.' && seg[11..] == "mp4";
    assert LastIndexOf(seg, '.') == Some(10);
    assert seg[..10] == "clip.part1";
  }

  /** A path ending in '/' and a file named only by its extension both show "Video". */
  lemma VideoNameFallback()
    ensures VideoName("/videos/a/") == "Video"
    ensures VideoName("/videos/.mp4") == "Video"
  {
    SplitJoin(["", "videos", "a", ""], '/');
    assert Join(["", "videos", "a", ""], "/") == "/videos/a/" by {
      assert Join(["videos", "a", ""], "/") == "videos/a/" by {
        assert Join(["a", ""], "/") == "a/" by {
          assert Join([""], "/") == "";
        }
      }
    }
    var seg := ".mp4";
    SplitJoin(["", "videos", seg], '/');
    assert Join(["", "videos", seg], "/") == "/videos/.mp4" by {
      assert Join(["videos", seg], "/") == "videos/" + seg by {
        assert Join([seg], "/") == seg;
      }
    }
    StripExtensionIsRegex(seg);
    assert ExtensionAt(seg, 0);
  }

  /**
   * The formatted name, position by position: '-' and '_' become spaces,
   * a character that starts a word (first, or after anything but a letter
   * or digit) is upper-cased, and every other character is kept.
   */
  lemma FormattedVideoNameAt(videoName: string)
    ensures |FormattedVideoName(videoName)| == |videoName|
    ensures forall k :: 0 <= k < |videoName| ==>
      FormattedVideoName(videoName)[k] == FormattedChar(videoName, k)
  {
    forall k | 0 <= k < |videoName| ensures FormattedVideoName(videoName)[k] == FormattedChar(videoName, k) {
      FormattedCharAt(videoName, k);
    }
  }

  /** What the formatted name holds at position `k`, stated on the original name. */
  function FormattedChar(videoName: string, k: nat): char
    requires k < |videoName|
  {
    if videoName[k] == '-' || videoName[k] == '_' then ' '
    else if k == 0 || !IsAlphanumeric(videoName[k - 1]) then Upper(videoName[k])
    else videoName[k]
  }

  lemma FormattedCharAt(videoName: string, k: nat)
    requires k < |videoName|
    ensures FormattedVideoName(videoName)[k] == FormattedChar(videoName, k)
  {
    CapitalizeAt(SpaceSeparators(videoName), false, k);
  }

  /** The scan upper-cases a word character exactly when the character before it is not one. */
  lemma {:induction false} CapitalizeAt(s: string, afterWord: bool, k: nat)
    requires k < |s|
    ensures CapitalizeWords(s, afterWord)[k] ==
      if IsWordChar(s[k]) && !(if k == 0 then afterWord else IsWordChar(s[k - 1])) then Upper(s[k]) else s[k]
    decreases |s|
  {
    if k > 0 {
      CapitalizeAt(s[1..], IsWordChar(s[0]), k - 1);
      assert s[1..][k - 1] == s[k];
      if k > 1 { assert s[1..][k - 2] == s[k - 1]; }
    }
  }

  /** The formatted name keeps the length and holds no '-' or '_'. */
  lemma FormattedVideoNameSeparators(videoName: string)
    ensures |FormattedVideoName(videoName)| == |videoName|
    ensures '-' !in FormattedVideoName(videoName) && '_' !in FormattedVideoName(videoName)
  {
    var r := FormattedVideoName(videoName);
    forall k | 0 <= k < |r| ensures r[k] != '-' && r[k] != '_' {
      var c := videoName[k];
      FormattedCharAt(videoName, k);
      if c != '-' && c != '_' {
        assert 'a' <= c <= 'z' ==> 'A' <= Upper(c) <= 'Z';
        assert !('a' <= c <= 'z') ==> Upper(c) == c;
      }
    }
  }

  /** Zero and missing durations both show "0:00". */
  lemma FormatDurationZero()
    ensures FormatDuration(None) == "0:00" && FormatDuration(Some(0)) == "0:00"
  {
  }

  /**
   * Below an hour the text is "M:SS" (two fields, seconds exactly two
   * digits); from an hour up it is "H:MM:SS" (three fields, minutes and
   * seconds exactly two digits). The leading field has no padding zero,
   * every later field reads as a number below 60, and the whole text
   * reads back as the duration.
   */
  lemma FormatDurationRoundTrip(seconds: nat)
    ensures var parts := Split(FormatDuration(Some(seconds)), ':');
      && (|parts[0]| == 1 || parts[0][0] != '0')
      && (seconds < 3600 ==> |parts| == 2 && |parts[1]| == 2)
      && (seconds >= 3600 ==> |parts| == 3 && |parts[1]| == 2 && |parts[2]| == 2)
      && (forall i :: 1 <= i < |parts| ==> ParseNat(parts[i]).Some? && ParseNat(parts[i]).value < 60)
    ensures ParseDuration(FormatDuration(Some(seconds))) == Some(seconds)
  {
    var f := DurationFields(seconds);
    if seconds == 0 {
      ParseShort(0, 0);
      assert NatToString(0) == "0" && PadStart2("0") == "00";
    } else if f.hours > 0 {
      ParseLong(f.hours, f.minutes, f.secs);
      PaddedPrinted(f.minutes);
      PaddedPrinted(f.secs);
    } else {
      ParseShort(f.minutes, f.secs);
      PaddedPrinted(f.secs);
    }
  }

  /**
   * The recommendations never include the video playing, number at most
   * four (four whenever four others were fetched), and keep the fetched
   * order. They are the first of the videos not playing: every such video
   * fetched before a recommended one is recommended too.
   */
  lemma RecommendationsShape(videos: seq<ListedVideo>, videoPath: string)
    ensures forall v :: v in Recommendations(videos, videoPath) ==> v.video.url != videoPath
    ensures var others := Filter(videos, (v: ListedVideo) => v.video.url != videoPath);
      |Recommendations(videos, videoPath)| == if |others| < 4 then |others| else 4
    ensures IsSubsequence(Recommendations(videos, videoPath), videos)
    ensures var others := Filter(videos, (v: ListedVideo) => v.video.url != videoPath);
      Recommendations(videos, videoPath) == others[..|Recommendations(videos, videoPath)|]
  {
    var keep := (v: ListedVideo) => v.video.url != videoPath;
    var others := Filter(videos, keep);
    forall v | v in Recommendations(videos, videoPath) ensures v.video.url != videoPath {
      assert v in others;
      FilterMembers(videos, keep, v);
    }
    FilterIsSubsequence(videos, keep);
    SubsequencePrefix(others, videos, if |others| < 4 then |others| else 4);
  }

  /**
   * A name that is blank once trimmed sends no request; any other name is
   * sent trimmed: non-empty, without surrounding whitespace, and framed in
   * the typed text by whitespace only.
   */
  lemma RenameRequestGuard(videoPath: string, newName: string)
    ensures RenameRequest(videoPath, newName).None? <==> AllSpace(newName)
    ensures RenameRequest(videoPath, newName).Some? ==>
      var body := RenameRequest(videoPath, newName).value;
      && body.oldPath == videoPath
      && body.newName != ""
      && !IsSpace(body.newName[0]) && !IsSpace(body.newName[|body.newName| - 1])
      && exists i :: Framed(newName, i, body.newName)
  {
    TrimEmptyIffAllSpace(newName);
    TrimFrames(newName);
  }
}
