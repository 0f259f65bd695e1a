/**
 * The catalog scan of the backend: `getAllVideos` and its inner
 * `walkDirectory`, over an abstract directory tree rooted at the video
 * directory.
 */
module Catalog {
  import opened Wrappers
  import opened Text
  import opened Seqs

  /**
   * What readdirSync and statSync report for one name: a directory (with
   * its listing), anything else, or a name the walk cannot read (statSync
   * throws on it, or it is a directory whose readdirSync throws).
   */
  datatype Node = File(name: string) | Dir(name: string, children: seq<Node>) | Unreadable(name: string)

  /** One catalog entry, as `getAllVideos` pushes it. */
  datatype VideoEntry = VideoEntry(filename: string, title: string, relativePath: string, url: string)

  /** The recognised extensions, lower-case with their dot. */
  const VideoExtensions: seq<string> := [".mp4", ".mkv", ".avi", ".mov"]

  /**
   * path.extname of a bare file name: the text from the last '.' on, or ""
   * when there is no dot, when the only dot is the first character, or for
   * the name "..".
   */
  function ExtName(name: string): string {
    match LastIndexOf(name, '.')
    case None => ""
    case Some(d) => if d == 0 || name == ".." then "" else name[d..]
  }

  /**
   * The extension is the final one: empty, or a dot followed by no other
   * dot, ending the name and shorter than it. It is empty only when the
   * name has no dot, its only dot leads, or the name is "..".
   */
  lemma ExtNameIsFinal(name: string)
    ensures var ext := ExtName(name);
      ext == [] || (ext[0] == '.' && |ext| < |name| && ext == name[|name| - |ext|..] && '.' !in ext[1..])
    ensures ExtName(name) == [] <==> '.' !in name || (name[0] == '.' && '.' !in name[1..]) || name == ".."
  {
    match LastIndexOf(name, '.')
    case None =>
    case Some(d) =>
      assert name[d..][1..] == name[d + 1..];
  }

  /** The test applied to every non-directory: its extension, lower-cased, is a recognised one. */
  predicate IsVideoFile(name: string) {
    LowerCase(ExtName(name)) in VideoExtensions
  }

  /** path.basename(file, path.extname(file)): the name without its final extension. */
  function Title(name: string): string {
    name[..|name| - |ExtName(name)|]
  }

  /** A non-directory found by the walk: the directory names leading to it from the root, and its own name. */
  datatype Located = Located(dirs: seq<string>, name: string)

  /** Whether the walk keeps this file. */
  predicate IsVideo(f: Located) {
    IsVideoFile(f.name)
  }

  /** The entry pushed for a kept file. */
  function MakeEntry(f: Located): VideoEntry {
    var rel := Join(f.dirs + [f.name], "/");
    VideoEntry(f.name, Title(f.name), rel, "/videos/" + ReplaceChar(rel, '\\', '/'))
  }

  function Entries(fs: seq<Located>): seq<VideoEntry> {
    seq(|fs|, i requires 0 <= i < |fs| => MakeEntry(fs[i]))
  }

  /**
   * Every non-directory below the listing `nodes` of the directory reached
   * through `dirs`, in the order walkDirectory visits them: each name of a
   * listing in turn, a sub-directory's contents in place of the
   * sub-directory.
   */
  function FilePaths(dirs: seq<string>, nodes: seq<Node>): seq<Located>
    decreases nodes
  {
    if nodes == [] then [] else NodeFiles(dirs, nodes[0]) + FilePaths(dirs, nodes[1..])
  }

  function NodeFiles(dirs: seq<string>, node: Node): seq<Located>
    decreases node
  {
    match node
    case File(name) => [Located(dirs, name)]
    case Dir(name, children) => FilePaths(dirs + [name], children)
    case Unreadable(_) => []
  }

  /** Every name below the listing can be stat'ed and every directory below it listed, so the walk never throws. */
  predicate Readable(nodes: seq<Node>)
    decreases nodes
  {
    forall k :: 0 <= k < |nodes| ==> NodeReadable(nodes[k])
  }

  predicate NodeReadable(node: Node)
    decreases node
  {
    match node
    case File(_) => true
    case Dir(_, children) => Readable(children)
    case Unreadable(_) => false
  }

  /** The video directory itself can be listed (`root` is its listing) and everything below it can be read. */
  predicate Loads(root: Option<seq<Node>>) {
    root.Some? && Readable(root.value)
  }

  /**
   * The catalog getAllVideos returns, stated as a pipeline: enumerate every
   * file under the root, keep the videos, make an entry of each.
   */
  function Scan(root: seq<Node>): seq<VideoEntry> {
    Entries(Filter(FilePaths([], root), IsVideo))
  }

  /** Enumerating two listings one after the other is enumerating their concatenation. */
  lemma {:induction false} FilePathsAppend(dirs: seq<string>, a: seq<Node>, b: seq<Node>)
    ensures FilePaths(dirs, a + b) == FilePaths(dirs, a) + FilePaths(dirs, b)
  {
    if a != [] {
      FilePathsAppend(dirs, a[1..], b);
      assert (a + b)[0] == a[0];
      assert (a + b)[1..] == a[1..] + b;
    } else {
      assert a + b == b;
    }
  }

  /** Making the entries of two runs of files one after the other. */
  lemma EntriesAppend(a: seq<Located>, b: seq<Located>)
    ensures Entries(a + b) == Entries(a) + Entries(b)
  {
    var l, r := Entries(a + b), Entries(a) + Entries(b);
    assert |l| == |r|;
    forall k | 0 <= k < |l| ensures l[k] == r[k] {
      if k < |a| { assert (a + b)[k] == a[k]; }
      else { assert (a + b)[k] == b[k - |a|]; }
    }
  }

  /** One more listed name adds exactly the entries of that name. */
  lemma WalkStep(dirs: seq<string>, children: seq<Node>, i: nat)
    requires i < |children|
    ensures Entries(Filter(FilePaths(dirs, children[..i + 1]), IsVideo))
         == Entries(Filter(FilePaths(dirs, children[..i]), IsVideo))
          + Entries(Filter(NodeFiles(dirs, children[i]), IsVideo))
  {
    var before, node := FilePaths(dirs, children[..i]), NodeFiles(dirs, children[i]);
    assert children[..i + 1] == children[..i] + [children[i]];
    FilePathsAppend(dirs, children[..i], [children[i]]);
    assert FilePaths(dirs, [children[i]]) == node + FilePaths(dirs, []);
    assert FilePaths(dirs, children[..i + 1]) == before + node;
    FilterAppend(before, node, IsVideo);
    EntriesAppend(Filter(before, IsVideo), Filter(node, IsVideo));
  }

  /** The listing is readable up to and including name `i` when it is up to `i` and that name is readable. */
  lemma ReadableStep(children: seq<Node>, i: nat)
    requires i < |children|
    ensures Readable(children[..i + 1]) <==> Readable(children[..i]) && NodeReadable(children[i])
    ensures Readable(children) ==> NodeReadable(children[i])
  {
    assert children[..i + 1][i] == children[i];
    assert forall k :: 0 <= k < i ==> children[..i + 1][k] == children[..i][k];
  }

  /** A listed non-directory adds its entry when it is a video, and nothing otherwise. */
  lemma FileStep(dirs: seq<string>, name: string)
    ensures Entries(Filter(NodeFiles(dirs, File(name)), IsVideo))
         == if IsVideoFile(name) then [MakeEntry(Located(dirs, name))] else []
  {
    assert NodeFiles(dirs, File(name)) == [Located(dirs, name)];
    assert Filter([Located(dirs, name)], IsVideo)
        == (if IsVideo(Located(dirs, name)) then [Located(dirs, name)] else []) + Filter([], IsVideo);
  }

  /**
   * walkDirectory: the `forEach` over one listing, pushing onto the shared
   * `videos` array. It throws (None) exactly when some name below the
   * listing cannot be read; otherwise the pushes are exactly the scan
   * pipeline applied to this listing.
   */
  method WalkDirectory(dirs: seq<string>, children: seq<Node>, videos: seq<VideoEntry>)
    returns (result: Option<seq<VideoEntry>>)
    ensures result.Some? <==> Readable(children)
    ensures result.Some? ==> result.value == videos + Entries(Filter(FilePaths(dirs, children), IsVideo))
    decreases children
  {
    var pushed := videos;
    for i := 0 to |children|
      invariant Readable(children[..i])
      invariant pushed == videos + Entries(Filter(FilePaths(dirs, children[..i]), IsVideo))
    {
      var visited := VisitEntry(dirs, children[i], pushed);
      ReadableStep(children, i);
      if visited.None? {
        return None;
      }
      pushed := visited.value;
      WalkStep(dirs, children, i);
      AppendStep(videos, Entries(Filter(FilePaths(dirs, children[..i]), IsVideo)),
                 Entries(Filter(NodeFiles(dirs, children[i]), IsVideo)));
    }
    assert children[..|children|] == children;
    result := Some(pushed);
  }

  /**
   * The `forEach` callback for one name: a directory is walked in turn, a
   * video file has its entry pushed, anything else is passed over, and a
   * name that cannot be read throws.
   */
  method VisitEntry(dirs: seq<string>, node: Node, videos: seq<VideoEntry>)
    returns (result: Option<seq<VideoEntry>>)
    ensures result.Some? <==> NodeReadable(node)
    ensures result.Some? ==> result.value == videos + Entries(Filter(NodeFiles(dirs, node), IsVideo))
    decreases node
  {
    match node {
      case Dir(name, grandchildren) =>
        result := WalkDirectory(dirs + [name], grandchildren, videos);
      case File(name) =>
        FileStep(dirs, name);
        if IsVideoFile(name) {
          result := Some(videos + [MakeEntry(Located(dirs, name))]);
        } else {
          result := Some(videos);
          assert videos + [] == videos;
        }
      case Unreadable(_) =>
        result := None;
    }
  }

  /**
   * getAllVideos: start with an empty array and walk the video directory,
   * whose listing is `root` (None when readdirSync cannot list it). The
   * call throws (None) exactly when the directory or a name below it
   * cannot be read, and otherwise returns the catalog.
   */
  method GetAllVideos(root: Option<seq<Node>>) returns (videos: Option<seq<VideoEntry>>)
    ensures videos.Some? <==> Loads(root)
    ensures videos.Some? ==> videos.value == Scan(root.value)
  {
    if root.None? {
      return None;
    }
    videos := WalkDirectory([], root.value, []);
  }

  /** There is a non-directory called `name` reached from the listing `nodes` through the directories `dirs`. */
  ghost predicate FileAt(nodes: seq<Node>, dirs: seq<string>, name: string)
    decreases |dirs|
  {
    exists i :: 0 <= i < |nodes| &&
      if dirs == [] then nodes[i] == File(name)
      else nodes[i].Dir? && nodes[i].name == dirs[0] && FileAt(nodes[i].children, dirs[1..], name)
  }

  /** Every file anywhere below the listing is enumerated, with its full path. */
  lemma {:induction false} FilePathsComplete(dirs: seq<string>, nodes: seq<Node>, rel: seq<string>, name: string)
    requires FileAt(nodes, rel, name)
    ensures Located(dirs + rel, name) in FilePaths(dirs, nodes)
    decreases |rel|, |nodes|
  {
    var i :| 0 <= i < |nodes| &&
      if rel == [] then nodes[i] == File(name)
      else nodes[i].Dir? && nodes[i].name == rel[0] && FileAt(nodes[i].children, rel[1..], name);
    if i == 0 {
      if rel == [] {
        assert dirs + rel == dirs;
      } else {
        FilePathsComplete(dirs + [rel[0]], nodes[0].children, rel[1..], name);
        assert dirs + [rel[0]] + rel[1..] == dirs + rel;
      }
    } else {
      assert nodes[1..][i - 1] == nodes[i];
      FilePathsComplete(dirs, nodes[1..], rel, name);
    }
  }

  /** Everything enumerated is a file below the listing. */
  lemma {:induction false} FilePathsSound(dirs: seq<string>, nodes: seq<Node>, f: Located)
    requires f in FilePaths(dirs, nodes)
    ensures exists rel :: f.dirs == dirs + rel && FileAt(nodes, rel, f.name)
    decreases nodes
  {
    if f in FilePaths(dirs, nodes[1..]) {
      FilePathsSound(dirs, nodes[1..], f);
      var rel :| f.dirs == dirs + rel && FileAt(nodes[1..], rel, f.name);
      var j :| 0 <= j < |nodes[1..]| &&
        if rel == [] then nodes[1..][j] == File(f.name)
        else nodes[1..][j].Dir? && nodes[1..][j].name == rel[0] && FileAt(nodes[1..][j].children, rel[1..], f.name);
      assert nodes[j + 1] == nodes[1..][j];
      assert FileAt(nodes, rel, f.name);
    } else {
      match nodes[0]
      case File(name) =>
        assert FileAt(nodes, [], name);
        assert f.dirs == dirs + [];
      case Dir(name, cs) =>
        FilePathsSound(dirs + [name], cs, f);
        var sub :| f.dirs == dirs + [name] + sub && FileAt(cs, sub, f.name);
        var rel := [name] + sub;
        assert rel[1..] == sub;
        assert FileAt(nodes, rel, f.name);
        assert dirs + [name] + sub == dirs + rel;
      case Unreadable(_) =>
    }
  }

  /** Every video file anywhere under the root has its entry in the catalog. */
  lemma ScanComplete(root: seq<Node>, rel: seq<string>, name: string)
    requires FileAt(root, rel, name) && IsVideoFile(name)
    ensures MakeEntry(Located(rel, name)) in Scan(root)
  {
    var f := Located(rel, name);
    var all := FilePaths([], root);
    FilePathsComplete([], root, rel, name);
    assert [] + rel == rel;
    FilterMembers(all, IsVideo, f);
    var kept := Filter(all, IsVideo);
    var k :| 0 <= k < |kept| && kept[k] == f;
    assert Entries(kept)[k] == MakeEntry(f);
  }

  /**
   * The catalog holds nothing else: each entry is made from a video file
   * found under the root, so directories never yield entries.
   */
  lemma ScanSound(root: seq<Node>, e: VideoEntry)
    requires e in Scan(root)
    ensures exists f: Located :: FileAt(root, f.dirs, f.name) && IsVideoFile(f.name) && e == MakeEntry(f)
  {
    var all := FilePaths([], root);
    var kept := Filter(all, IsVideo);
    var k :| 0 <= k < |kept| && Entries(kept)[k] == e;
    var f := kept[k];
    FilterMembers(all, IsVideo, f);
    FilePathsSound([], root, f);
    var r :| f.dirs == [] + r && FileAt(root, r, f.name);
    assert [] + r == r;
    assert FileAt(root, f.dirs, f.name);
  }

  /**
   * What a directory tree on disk guarantees: no two names in one listing
   * are equal, and no name holds the separator '/'.
   */
  predicate WellFormed(nodes: seq<Node>)
    decreases nodes
  {
    && (forall i, j :: 0 <= i < j < |nodes| ==> nodes[i].name != nodes[j].name)
    && (forall k :: 0 <= k < |nodes| ==> NodeWellFormed(nodes[k]))
  }

  predicate NodeWellFormed(node: Node)
    decreases node
  {
    '/' !in node.name && (node.Dir? ==> WellFormed(node.children))
  }

  /** No name on the file's path holds '/'. */
  ghost predicate SlashFree(f: Located) {
    '/' !in f.name && forall k :: 0 <= k < |f.dirs| ==> '/' !in f.dirs[k]
  }

  /**
   * `f` lies under the name `head` of the directory reached through `dirs`:
   * its path starts with `dirs`, continues with `head` (or is `head`
   * itself), and no name after `dirs` holds '/'.
   */
  ghost predicate Under(dirs: seq<string>, head: string, f: Located) {
    && |dirs| <= |f.dirs|
    && f.dirs[..|dirs|] == dirs
    && (if |f.dirs| == |dirs| then f.name == head else f.dirs[|dirs|] == head)
    && '/' !in f.name
    && (forall k :: |dirs| <= k < |f.dirs| ==> '/' !in f.dirs[k])
  }

  /** Every file enumerated from a listing comes from one of its names. */
  lemma {:induction false} FilePathsMember(dirs: seq<string>, nodes: seq<Node>, f: Located)
    requires f in FilePaths(dirs, nodes)
    ensures exists i :: 0 <= i < |nodes| && f in NodeFiles(dirs, nodes[i])
    decreases nodes
  {
    if f !in NodeFiles(dirs, nodes[0]) {
      FilePathsMember(dirs, nodes[1..], f);
      var i :| 0 <= i < |nodes[1..]| && f in NodeFiles(dirs, nodes[1..][i]);
      assert nodes[1..][i] == nodes[i + 1];
    }
  }

  /** In a well-formed tree every file enumerated from a name lies under that name. */
  lemma {:induction false} NodeFilesUnder(dirs: seq<string>, node: Node, f: Located)
    requires NodeWellFormed(node) && f in NodeFiles(dirs, node)
    ensures Under(dirs, node.name, f)
    decreases node
  {
    match node
    case File(name) =>
      assert f.dirs[..|dirs|] == dirs;
    case Dir(name, children) =>
      var inner := dirs + [name];
      FilePathsMember(inner, children, f);
      var i :| 0 <= i < |children| && f in NodeFiles(inner, children[i]);
      NodeFilesUnder(inner, children[i], f);
      assert f.dirs[..|dirs|] == f.dirs[..|inner|][..|dirs|];
      assert f.dirs[|dirs|] == f.dirs[..|inner|][|dirs|];
  }

  /** A well-formed listing enumerates no file twice: different names lead to different paths. */
  lemma {:induction false} FilePathsDistinct(dirs: seq<string>, nodes: seq<Node>)
    requires WellFormed(nodes)
    ensures Distinct(FilePaths(dirs, nodes))
    decreases nodes
  {
    if nodes != [] {
      var first, rest := NodeFiles(dirs, nodes[0]), FilePaths(dirs, nodes[1..]);
      assert WellFormed(nodes[1..]) by {
        forall i, j | 0 <= i < j < |nodes[1..]| ensures nodes[1..][i].name != nodes[1..][j].name {
          assert nodes[1..][i] == nodes[i + 1] && nodes[1..][j] == nodes[j + 1];
        }
        forall k | 0 <= k < |nodes[1..]| ensures NodeWellFormed(nodes[1..][k]) {
          assert nodes[1..][k] == nodes[k + 1];
        }
      }
      NodeFilesDistinct(dirs, nodes[0]);
      FilePathsDistinct(dirs, nodes[1..]);
      forall f | f in first ensures f !in rest {
        NodeFilesUnder(dirs, nodes[0], f);
        if f in rest {
          FilePathsMember(dirs, nodes[1..], f);
          var i :| 0 <= i < |nodes[1..]| && f in NodeFiles(dirs, nodes[1..][i]);
          assert nodes[1..][i] == nodes[i + 1];
          NodeFilesUnder(dirs, nodes[i + 1], f);
        }
      }
      DistinctAppend(first, rest);
    }
  }

  lemma {:induction false} NodeFilesDistinct(dirs: seq<string>, node: Node)
    requires NodeWellFormed(node)
    ensures Distinct(NodeFiles(dirs, node))
    decreases node
  {
    match node
    case File(_) =>
    case Dir(name, children) =>
      FilePathsDistinct(dirs + [name], children);
    case Unreadable(_) =>
  }

  /** Every file the scan of a well-formed tree enumerates has a path free of '/'. */
  lemma ScannedSlashFree(root: seq<Node>, f: Located)
    requires WellFormed(root) && f in FilePaths([], root)
    ensures SlashFree(f)
  {
    FilePathsMember([], root, f);
    var i :| 0 <= i < |root| && f in NodeFiles([], root[i]);
    NodeFilesUnder([], root[i], f);
  }

  /** Files whose paths hold no '/' in any name have different relative paths when they differ. */
  lemma RelativePathInjective(f: Located, g: Located)
    requires SlashFree(f) && SlashFree(g)
    requires MakeEntry(f).relativePath == MakeEntry(g).relativePath
    ensures f == g
  {
    var p, q := f.dirs + [f.name], g.dirs + [g.name];
    forall k | 0 <= k < |p| ensures '/' !in p[k] {
      if k < |f.dirs| { assert p[k] == f.dirs[k]; }
    }
    forall k | 0 <= k < |q| ensures '/' !in q[k] {
      if k < |g.dirs| { assert q[k] == g.dirs[k]; }
    }
    SplitJoin(p, '/');
    SplitJoin(q, '/');
    assert p == q;
    assert f.dirs == p[..|p| - 1] && g.dirs == q[..|q| - 1];
  }

  /** The catalog of a well-formed tree holds no entry twice. */
  lemma ScanDistinct(root: seq<Node>)
    requires WellFormed(root)
    ensures Distinct(Scan(root))
  {
    var all := FilePaths([], root);
    var kept := Filter(all, IsVideo);
    FilePathsDistinct([], root);
    FilterDistinct(all, IsVideo);
    var entries := Entries(kept);
    forall i, j | 0 <= i < j < |entries| ensures entries[i] != entries[j] {
      FilterMembers(all, IsVideo, kept[i]);
      FilterMembers(all, IsVideo, kept[j]);
      ScannedSlashFree(root, kept[i]);
      ScannedSlashFree(root, kept[j]);
      if entries[i] == entries[j] {
        RelativePathInjective(kept[i], kept[j]);
      }
    }
  }

  /** In a well-formed tree every video file has exactly one entry in the catalog. */
  lemma ScanOnce(root: seq<Node>, rel: seq<string>, name: string)
    requires WellFormed(root) && FileAt(root, rel, name) && IsVideoFile(name)
    ensures multiset(Scan(root))[MakeEntry(Located(rel, name))] == 1
  {
    ScanComplete(root, rel, name);
    ScanDistinct(root);
    DistinctMultiplicity(Scan(root));
  }

  /** A joined string holds a character only if a piece or the separator does. */
  lemma {:induction false} JoinAvoids(parts: seq<string>, sep: string, c: char)
    requires c !in sep
    requires forall k :: 0 <= k < |parts| ==> c !in parts[k]
    ensures c !in Join(parts, sep)
    decreases |parts|
  {
    if |parts| > 1 {
      JoinAvoids(parts[1..], sep, c);
    }
  }

  /**
   * What each entry holds: `filename` is the file's own name, `title` is
   * that name with only its final extension removed, `relativePath` is the
   * path from the root joined with '/', and when no name on the path holds
   * a backslash (always so on Windows, where the scan targets) `url` is
   * "/videos/" followed by `relativePath`.
   */
  lemma EntryFields(f: Located)
    ensures MakeEntry(f).filename == f.name
    ensures MakeEntry(f).title + ExtName(f.name) == f.name
    ensures MakeEntry(f).relativePath == Join(f.dirs + [f.name], "/")
    ensures (forall k :: 0 <= k < |f.dirs| ==> '\\' !in f.dirs[k]) && '\\' !in f.name ==>
              MakeEntry(f).url == "/videos/" + MakeEntry(f).relativePath
  {
    var name := f.name;
    assert name[..|name| - |ExtName(name)|] + name[|name| - |ExtName(name)|..] == name;
    if (forall k :: 0 <= k < |f.dirs| ==> '\\' !in f.dirs[k]) && '\\' !in f.name {
      var path := f.dirs + [f.name];
      var rel := Join(path, "/");
      JoinAvoids(path, "/", '\\');
      assert ReplaceChar(rel, '\\', '/') == rel;
    }
  }

  /**
   * An independent reading of the video test: the name is at least one
   * character followed by one of the recognised extensions, in any mix of
   * upper and lower case.
   */
  lemma IsVideoFileIffSuffix(name: string)
    ensures IsVideoFile(name) <==>
              |name| >= 5 && LowerCase(name[|name| - 4..]) in VideoExtensions
  {
    var ext := ExtName(name);
    if IsVideoFile(name) {
      assert |LowerCase(ext)| == 4;
      assert name[|name| - 4..] == ext;
    }
    if |name| >= 5 && LowerCase(name[|name| - 4..]) in VideoExtensions {
      var tail := name[|name| - 4..];
      var low := LowerCase(tail);
      assert low[0] == '.' && '.' !in low[1..];
      assert tail[0] == '.';
      forall k | 1 <= k < 4 ensures tail[k] != '.' {
        assert low[1..][k - 1] == low[k];
      }
      var d := |name| - 4;
      assert name[d] == '.';
      match LastIndexOf(name, '.')
      case Some(j) =>
        assert j == d;
        assert name != "..";
        assert ext == tail;
    }
  }

  /** An upper-case extension counts, and the title is the name without it. */
  lemma UpperCaseExtension()
    ensures IsVideoFile("c.MKV") && Title("c.MKV") == "c"
  {
    assert "c.MKV"[..4] == "c.MK";
    assert "c.MK"[..3] == "c.M";
    assert "c.M"[..2] == "c.";
    assert LastIndexOf("c.MKV", '.') == Some(1);
    assert LowerCase(".MKV") == ".mkv";
  }

  /** A name that is only an extension has none, so it is not a video. */
  lemma DotFileIsNotVideo()
    ensures !IsVideoFile(".mp4")
  {
    assert ".mp4"[..3] == ".mp";
    assert ".mp"[..2] == ".m";
    assert ".m"[..1] == ".";
    assert LastIndexOf(".mp4", '.') == Some(0);
  }

  /** Only the final extension leaves the title. */
  lemma OnlyFinalExtensionRemoved()
    ensures IsVideoFile("clip.part1.mp4") && Title("clip.part1.mp4") == "clip.part1"
  {
    var n := "clip.part1.mp4";
    assert n[..13] == "clip.part1.mp";
    assert n[..13][..12] == "clip.part1.m";
    assert n[..13][..12][..11] == "clip.part1.";
    assert LastIndexOf(n, '.') == Some(10);
    assert LowerCase(".mp4") == ".mp4";
  }

  /** A video directory holding a/b.mp4, c.MKV and notes.txt. */
  function ExampleRoot(): seq<Node> {
    [Dir("a", [File("b.mp4")]), File("c.MKV"), File("notes.txt")]
  }

  /** The walk visits a's contents, then c.MKV, then notes.txt. */
  lemma ExampleFiles(root: seq<Node>)
    requires root == ExampleRoot()
    ensures FilePaths([], root) == [Located(["a"], "b.mp4"), Located([], "c.MKV"), Located([], "notes.txt")]
  {
    FilePathsAppend([], [root[0]], root[1..]);
    FilePathsAppend([], [root[1]], [root[2]]);
    assert root == [root[0]] + root[1..];
    assert root[1..] == [root[1]] + [root[2]];
    assert FilePaths(["a"], [File("b.mp4")]) == [Located(["a"], "b.mp4")];
    assert [] + ["a"] == ["a"];
  }

  /** The extension test of the three names: the two videos pass whatever their case, the text file fails. */
  lemma ExampleVideoTests()
    ensures IsVideoFile("b.mp4") && IsVideoFile("c.MKV") && !IsVideoFile("notes.txt")
  {
    ExampleMp4();
    UpperCaseExtension();
    ExampleTxt();
  }

  lemma ExampleMp4()
    ensures IsVideoFile("b.mp4") && Title("b.mp4") == "b"
  {
    assert "b.mp4"[..4] == "b.mp";
    assert "b.mp"[..3] == "b.m";
    assert "b.m"[..2] == "b.";
    assert LastIndexOf("b.mp4", '.') == Some(1);
    assert LowerCase(".mp4") == ".mp4";
  }

  lemma ExampleTxt()
    ensures !IsVideoFile("notes.txt")
  {
    var n := "notes.txt";
    assert n[..8] == "notes.tx";
    assert n[..8][..7] == "notes.t";
    assert n[..8][..7][..6] == "notes.";
    assert LastIndexOf(n, '.') == Some(5);
    assert LowerCase(".txt") == ".txt";
  }

  lemma ExampleKept()
    ensures Filter([Located(["a"], "b.mp4"), Located([], "c.MKV"), Located([], "notes.txt")], IsVideo)
      == [Located(["a"], "b.mp4"), Located([], "c.MKV")]
  {
    ExampleVideoTests();
    FilterKeepsFirstTwo(Located(["a"], "b.mp4"), Located([], "c.MKV"), Located([], "notes.txt"), IsVideo);
  }

  /** The entry of a nested video. */
  lemma ExampleEntryB(dir: string, name: string)
    requires dir == "a" && name == "b.mp4"
    ensures MakeEntry(Located([dir], name)) == VideoEntry("b.mp4", "b", "a/b.mp4", "/videos/a/b.mp4")
  {
    ExampleMp4();
    ExampleRelativePath();
    assert [dir] + [name] == ["a"] + ["b.mp4"];
    ReplaceCharAbsent("a/b.mp4", '\\', '/');
    assert "/videos/" + "a/b.mp4" == "/videos/a/b.mp4";
  }

  lemma ExampleRelativePath()
    ensures Join(["a"] + ["b.mp4"], "/") == "a/b.mp4"
  {
    var parts := ["a"] + ["b.mp4"];
    assert parts[0] == "a" && parts[1..] == ["b.mp4"];
    assert Join(parts, "/") == "a" + "/" + "b.mp4";
  }

  /** A file at the root has its own name as relative path, and "/videos/" and that name as URL. */
  lemma RootEntry(name: string)
    requires '\\' !in name
    ensures MakeEntry(Located([], name)) == VideoEntry(name, Title(name), name, "/videos/" + name)
  {
    assert [] + [name] == [name];
    ReplaceCharAbsent(name, '\\', '/');
  }

  /** The entry of a video at the root keeps the case of its extension in every field but the title. */
  lemma ExampleEntryC(name: string)
    requires name == "c.MKV"
    ensures MakeEntry(Located([], name)) == VideoEntry("c.MKV", "c", "c.MKV", "/videos/c.MKV")
  {
    UpperCaseExtension();
    assert '\\' !in name;
    RootEntry(name);
    assert "/videos/" + "c.MKV" == "/videos/c.MKV";
  }

  /** The whole scan of the example directory: the two videos, in walk order, and nothing for the text file. */
  lemma ScanExample(root: seq<Node>)
    requires root == ExampleRoot()
    ensures Scan(root) ==
      [VideoEntry("b.mp4", "b", "a/b.mp4", "/videos/a/b.mp4"), VideoEntry("c.MKV", "c", "c.MKV", "/videos/c.MKV")]
  {
    var b, c := Located(["a"], "b.mp4"), Located([], "c.MKV");
    ExampleFiles(root);
    ExampleKept();
    assert Entries([b, c]) == [MakeEntry(b), MakeEntry(c)];
    ExampleEntryB("a", "b.mp4");
    ExampleEntryC("c.MKV");
  }
}
