/** Post-download file placement (`telegram_bot/services/media_manager.py`):
    Plex file and folder names, the file checks made before a download starts,
    and the move-and-rename step after it finishes.

    The torrent's file list is a sequence of (path, size) records. The file
    system, Wikipedia and the Plex server are oracles passed in as functions. */
module MediaManager {
  import opened Wrappers
  import opened Strings
  import opened Values
  import opened Paths
  import opened BotUtils
  import Seqs

  /** One file of a torrent: its path inside the torrent and its size in bytes. */
  datatype TorrentFile = TorrentFile(path: string, size: int)

  /** Characters Plex-bound names must not contain. */
  const InvalidChars: set<char> := {'<', '>', ':', '"', '/', '\\', '|', '?', '*'}

  /** `ALLOWED_EXTENSIONS` of `telegram_bot/config.py`. */
  const AllowedExtensions: seq<string> := [".mkv", ".mp4"]

  /** Files above 10 MiB count as media candidates. */
  const LargeFileBytes: int := 10 * 1024 * 1024

  /** The exceptions post-processing can meet, by kind. */
  datatype Failure =
    | KeyError(key: string)
    | TypeError
    | ValueError
    | FileNotFound
    | MoveFailed(message: string)

  /** A character Plex-bound names may keep. */
  predicate Allowed(c: char) { c !in InvalidChars }

  /** `"".join(c for c in t if c not in invalid_chars)`: the allowed characters
      of `t`, in their order. */
  function SafeName(t: string): (r: string)
    ensures r == Seqs.Filter(t, Allowed)
    ensures forall k :: 0 <= k < |r| ==> r[k] !in InvalidChars
    ensures forall c :: c !in InvalidChars ==> multiset(r)[c] == multiset(t)[c]
  {
    RemoveAllowedIsFilter(t);
    RemoveChars(t, InvalidChars)
  }

  /** Removing the invalid characters is the comprehension that keeps the
      allowed ones. */
  lemma {:induction false} RemoveAllowedIsFilter(t: string)
    ensures RemoveChars(t, InvalidChars) == Seqs.Filter(t, Allowed)
  {
    if |t| > 0 {
      RemoveAllowedIsFilter(t[1..]);
    }
  }

  /** Names are cleaned one character at a time and in order: a name split
      anywhere cleans to its cleaned halves joined, and a single character
      survives exactly when it is allowed. */
  lemma SafeNameKeepsOrder(a: string, b: string, c: char)
    ensures SafeName(a + b) == SafeName(a) + SafeName(b)
    ensures SafeName([c]) == if c in InvalidChars then "" else [c]
  {
    Seqs.FilterAppend(a, b, Allowed);
    assert [c][1..] == [];
  }

  /** A value `{v:02d}` accepts: an int, or a bool (an int in Python). */
  function IntLike(v: Value): (r: Option<int>)
    ensures v.VInt? ==> r == Some(v.i)
    ensures v.VStr? || v.VNone? ==> r.None?
  {
    match v
    case VInt(i) => Some(i)
    case VBool(b) => Some(if b then 1 else 0)
    case _ => None
  }

  /** `f"{v:02d}"`: strings and `None` raise. */
  function Format02(v: Value): (r: Result<string, Failure>)
    ensures IntLike(v).Some? <==> r.Ok?
    ensures IntLike(v).Some? ==> r.value == Pad2(IntLike(v).value)
  {
    match IntLike(v)
    case Some(n) => Ok(Pad2(n))
    case None => if v.VStr? then Err(ValueError) else Err(TypeError)
  }

  /** Iterating over the characters of a title: anything but a string raises. */
  function TitleText(info: Dict, default: string): (r: Result<string, Failure>)
    ensures "title" !in info ==> r == Ok(default)
    ensures "title" in info ==> (r.Ok? <==> info["title"].VStr?)
    ensures "title" in info && info["title"].VStr? ==> r == Ok(info["title"].s)
  {
    if "title" !in info then Ok(default)
    else match info["title"]
      case VStr(t) => Ok(t)
      case _ => Err(TypeError)
  }

  // ---------------------------------------------------------------------------
  // generate_plex_filename

  /** `d.get(k, default)`. */
  function GetOr(d: Dict, k: string, default: Value): (v: Value)
    ensures k in d ==> v == d[k]
    ensures k !in d ==> v == default
  {
    if k in d then d[k] else default
  }

  /** The name of an episode file: `s{season:02d}e{episode:02d}`, then
      " - <episode title>" when there is one, then the extension. */
  function EpisodeFileName(season: Value, episode: Value, episodeTitle: Value, ext: string): (r: Result<string, Failure>)
    ensures r.Ok? <==> IntLike(season).Some? && IntLike(episode).Some? && (!Truthy(episodeTitle) || episodeTitle.VStr?)
  {
    match Format02(season)
    case Err(e) => Err(e)
    case Ok(ss) =>
      match Format02(episode)
      case Err(e) => Err(e)
      case Ok(ee) =>
        if !Truthy(episodeTitle) then Ok("s" + ss + "e" + ee + ext)
        else if episodeTitle.VStr? then Ok("s" + ss + "e" + ee + " - " + SafeName(episodeTitle.s) + ext)
        else Err(TypeError)
  }

  /** `generate_plex_filename`. The title is sanitised before the branch, so a
      title that is not a string fails whatever the media type. */
  function GeneratePlexFilename(info: Dict, ext: string): (r: Result<string, Failure>)
    ensures TitleText(info, "Unknown Title").Err? ==> r.Err?
    ensures TitleText(info, "Unknown Title").Ok? && Get(info, "type") == VStr("tv") ==>
      r == EpisodeFileName(GetOr(info, "season", VInt(0)), GetOr(info, "episode", VInt(0)), Get(info, "episode_title"), ext)
    ensures TitleText(info, "Unknown Title").Ok? && Get(info, "type") != VStr("movie") && Get(info, "type") != VStr("tv") ==>
      r == Ok(SafeName(TitleText(info, "Unknown Title").value) + ext)
  {
    match TitleText(info, "Unknown Title")
    case Err(e) => Err(e)
    case Ok(title) =>
      var safe := SafeName(title);
      if Get(info, "type") == VStr("movie") then
        var year := if "year" in info then Show(info["year"]) else "Unknown Year";
        Ok(safe + " (" + year + ")" + ext)
      else if Get(info, "type") == VStr("tv") then
        EpisodeFileName(GetOr(info, "season", VInt(0)), GetOr(info, "episode", VInt(0)), Get(info, "episode_title"), ext)
      else Ok(safe + ext)
  }

  /** The parsed record of a film. */
  function MovieInfo(title: string, year: string): Dict {
    map["type" := VStr("movie"), "title" := VStr(title), "year" := VStr(year)]
  }

  /** The parsed record of an episode, with its looked-up title if any. */
  function EpisodeInfo(title: string, season: int, episode: int, episodeTitle: Option<string>): Dict {
    var d := map["type" := VStr("tv"), "title" := VStr(title), "season" := VInt(season), "episode" := VInt(episode)];
    match episodeTitle
    case None => d
    case Some(t) => d["episode_title" := VStr(t)]
  }

  /** A film is named "<title> (<year>)<ext>", its title stripped of the
      characters Plex cannot take. */
  lemma MovieFilename(title: string, year: string, ext: string)
    ensures GeneratePlexFilename(MovieInfo(title, year), ext) == Ok(SafeName(title) + " (" + year + ")" + ext)
  {
  }

  /** An episode is named "sSSeEE[ - <episode title>]<ext>", both numbers
      padded to two digits. */
  lemma EpisodeFilename(title: string, season: int, episode: int, episodeTitle: Option<string>, ext: string)
    ensures var n := GeneratePlexFilename(EpisodeInfo(title, season, episode, episodeTitle), ext);
      && n.Ok?
      && (episodeTitle.None? || episodeTitle == Some("") ==> n.value == "s" + Pad2(season) + "e" + Pad2(episode) + ext)
      && (episodeTitle.Some? && episodeTitle.value != "" ==>
            n.value == "s" + Pad2(season) + "e" + Pad2(episode) + " - " + SafeName(episodeTitle.value) + ext)
  {
    var d := EpisodeInfo(title, season, episode, episodeTitle);
    assert Get(d, "type") == VStr("tv");
    assert TitleText(d, "Unknown Title") == Ok(title);
    assert GetOr(d, "season", VInt(0)) == VInt(season);
    assert GetOr(d, "episode", VInt(0)) == VInt(episode);
    assert Get(d, "episode_title") == if episodeTitle.Some? then VStr(episodeTitle.value) else VNone;
  }

  /** The file name given to an episode is recognised again as that episode by
      `parse_torrent_name`, whatever its episode title and extension. */
  lemma EpisodeFilenameReparses(title: string, season: nat, episode: nat, episodeTitle: Option<string>, ext: string)
    requires season < 100 && episode < 100
    requires ext == "" || ext[0] == '.'
    ensures var n := GeneratePlexFilename(EpisodeInfo(title, season, episode, episodeTitle), ext).value;
      var p := ParseTorrentName(n);
      p.TvName? && p.season == season && p.episode == episode
  {
    EpisodeFilename(title, season, episode, episodeTitle, ext);
    var n := GeneratePlexFilename(EpisodeInfo(title, season, episode, episodeTitle), ext).value;
    var tail := if episodeTitle.None? || episodeTitle == Some("") then ext else " - " + SafeName(episodeTitle.value) + ext;
    EpisodeNameTail(n, Pad2(season), Pad2(episode), episodeTitle, ext);
    MarkerAtStart(n, season, episode, tail);
  }

  /** The text after the `sSSeEE` marker of an episode file name. */
  lemma EpisodeNameTail(n: string, ps: string, pe: string, episodeTitle: Option<string>, ext: string)
    requires ext == "" || ext[0] == '.'
    requires episodeTitle.None? || episodeTitle == Some("") ==> n == "s" + ps + "e" + pe + ext
    requires episodeTitle.Some? && episodeTitle.value != "" ==> n == "s" + ps + "e" + pe + " - " + SafeName(episodeTitle.value) + ext
    ensures var tail := if episodeTitle.None? || episodeTitle == Some("") then ext else " - " + SafeName(episodeTitle.value) + ext;
      n == "s" + ps + "e" + pe + tail && (tail == "" || tail[0] == ' ' || tail[0] == '.')
  {
    if episodeTitle.Some? && episodeTitle.value != "" {
      TitledTail("s" + ps + "e" + pe, SafeName(episodeTitle.value), ext);
    }
  }

  /** " - <title><ext>" is one tail starting with a space. */
  lemma TitledTail(head: string, t: string, ext: string)
    ensures head + " - " + t + ext == head + (" - " + t + ext)
    ensures (" - " + t + ext)[0] == ' '
  {
  }

  /** A name starting with `sSSeEE` and a non-word separator parses as that episode. */
  lemma MarkerAtStart(n: string, season: nat, episode: nat, tail: string)
    requires season < 100 && episode < 100
    requires n == "s" + Pad2(season) + "e" + Pad2(episode) + tail
    requires tail == "" || tail[0] == ' ' || tail[0] == '.'
    ensures var p := ParseTorrentName(n);
      p.TvName? && p.season == season && p.episode == episode
  {
    var c := CleanName(n);
    var ps := Pad2(season);
    var pe := Pad2(episode);
    assert forall k :: 0 <= k < 6 ==> c[k] == n[k];
    assert c[1..3] == ps by { assert forall k :: 1 <= k < 3 ==> n[k] == ps[k - 1]; }
    assert c[4..6] == pe by { assert forall k :: 4 <= k < 6 ==> n[k] == pe[k - 4]; }
    assert |c| == 6 || c[6] == ' ' by {
      if |c| > 6 { assert n[6] == tail[0]; }
    }
    assert Lower('S') == 's' by { assert 'S' as int + 32 == 's' as int; }
    assert Lower('E') == 'e' by { assert 'E' as int + 32 == 'e' as int; }
    assert c[0] == 's' && c[3] == 'e';
    EpisodeMarker(c, 0, ps, pe);
    FindTvAt(c, 0, 0);
  }

  // ---------------------------------------------------------------------------
  // _get_final_destination_path

  /** `_get_final_destination_path`. The fallback `save_paths["default"]` is an
      argument of `dict.get`, so it is looked up (and raises) even when the
      preferred key is present. */
  function DestinationPath(info: Dict, savePaths: map<string, string>): (r: Result<string, Failure>)
    ensures "default" !in savePaths ==> r == Err(KeyError("default"))
    ensures "default" in savePaths && Get(info, "type") == VStr("movie") ==>
      r == Ok(if "movies" in savePaths then savePaths["movies"] else savePaths["default"])
    ensures "default" in savePaths && Get(info, "type") == VStr("tv") ==>
      r == SeasonFolder(if "tv_shows" in savePaths then savePaths["tv_shows"] else savePaths["default"],
                        TitleText(info, "Unknown Show"), GetOr(info, "season", VInt(0)))
    ensures "default" in savePaths && Get(info, "type") != VStr("movie") && Get(info, "type") != VStr("tv") ==>
      r == Ok(savePaths["default"])
  {
    if "default" !in savePaths then Err(KeyError("default"))
    else if Get(info, "type") == VStr("movie") then
      Ok(if "movies" in savePaths then savePaths["movies"] else savePaths["default"])
    else if Get(info, "type") == VStr("tv") then
      var root := if "tv_shows" in savePaths then savePaths["tv_shows"] else savePaths["default"];
      SeasonFolder(root, TitleText(info, "Unknown Show"), GetOr(info, "season", VInt(0)))
    else Ok(savePaths["default"])
  }

  /** "<root>/<show>/Season NN": the last component is the season folder, and
      the sanitised show title is the one above it. */
  function SeasonFolder(root: string, show: Result<string, Failure>, season: Value): (r: Result<string, Failure>)
    ensures r.Ok? <==> show.Ok? && IntLike(season).Some?
    ensures r.Ok? ==> Basename(r.value) == "Season " + Pad2(IntLike(season).value)
    ensures r.Ok? && |SafeName(show.value)| > 0 ==> Basename(ParentDir(r.value)) == SafeName(show.value)
  {
    match show
    case Err(e) => Err(e)
    case Ok(title) =>
      match Format02(season)
      case Err(e) => Err(e)
      case Ok(ss) =>
        var showDir := PathJoin(root, SafeName(title));
        var folder := "Season " + ss;
        SeasonNameNoSlash(IntLike(season).value);
        JoinBasename(showDir, folder);
        if |SafeName(title)| > 0 then
          JoinTwoNames(root, SafeName(title), folder);
          Ok(PathJoin(showDir, folder))
        else Ok(PathJoin(showDir, folder))
  }

  /** "Season NN" is a single path component. */
  lemma SeasonNameNoSlash(n: int)
    ensures forall k :: 0 <= k < |"Season " + Pad2(n)| ==> ("Season " + Pad2(n))[k] != '/'
  {
    var folder := "Season " + Pad2(n);
    assert forall k :: 7 <= k < |folder| ==> folder[k] == Pad2(n)[k - 7];
    PadNoSlash(n);
  }

  lemma PadNoSlash(n: int)
    ensures forall k :: 0 <= k < |Pad2(n)| ==> Pad2(n)[k] != '/'
  {
    if n < 0 {
      var t := NatToString(-n);
      assert Pad2(n) == "-" + t;
      assert forall k :: 1 <= k < |Pad2(n)| ==> Pad2(n)[k] == t[k - 1];
    }
  }

  // ---------------------------------------------------------------------------
  // _trigger_plex_scan

  /** The Plex library a media type is scanned in. */
  function LibraryFor(mediaType: Value): (r: Option<string>)
    ensures r.Some? <==> mediaType == VStr("movie") || mediaType == VStr("tv")
  {
    if mediaType == VStr("movie") then Some("Movies")
    else if mediaType == VStr("tv") then Some("TV Shows")
    else None
  }

  /** `_trigger_plex_scan`: nothing without a Plex configuration or a known
      library; otherwise the outcome of the server call (`serverOk`). */
  function TriggerScan(mediaType: Value, plexConfigured: bool, serverOk: bool): (r: string)
    ensures !plexConfigured || LibraryFor(mediaType).None? ==> r == ""
    ensures plexConfigured && LibraryFor(mediaType).Some? ==> r != ""
  {
    if !plexConfigured then ""
    else match LibraryFor(mediaType)
      case None => ""
      case Some(lib) =>
        if serverOk then "\n\nPlex scan for the `" + lib + "` library has been initiated\\."
        else "\n\n*Plex Error:* Could not trigger scan\\."
  }

  /** The scan message tells the two libraries apart, and a failed scan never
      reads like a started one. */
  lemma ScanMessageNamesLibrary(a: Value, b: Value)
    requires LibraryFor(a).Some? && LibraryFor(b).Some?
    ensures TriggerScan(a, true, true) == TriggerScan(b, true, true) <==> LibraryFor(a) == LibraryFor(b)
    ensures TriggerScan(a, true, true) != TriggerScan(a, true, false)
  {
    var ok := TriggerScan(a, true, true);
    var failed := TriggerScan(a, true, false);
    assert ok[2] == 'P' && failed[2] == '*';
    if LibraryFor(a) != LibraryFor(b) {
      var other := TriggerScan(b, true, true);
      assert ok[21] != other[21];
    }
  }

  // ---------------------------------------------------------------------------
  // get_dominant_file_type, parse_resolution_from_name

  /** `max(range(n), key=file_size)`: the first index of largest size. */
  function LargestIndex(files: seq<TorrentFile>): (r: nat)
    requires |files| > 0
    ensures r < |files|
    ensures forall j :: 0 <= j < |files| ==> files[j].size <= files[r].size
    ensures forall j :: 0 <= j < r ==> files[j].size < files[r].size
  {
    if |files| == 1 then 0
    else
      var i := LargestIndex(files[..|files| - 1]);
      assert forall j :: 0 <= j < |files| - 1 ==> files[..|files| - 1][j] == files[j];
      if files[|files| - 1].size > files[i].size then |files| - 1 else i
  }

  /** `get_dominant_file_type`: the upper-cased extension of the largest file. */
  function DominantFileType(files: seq<TorrentFile>): (r: string)
    ensures |files| == 0 ==> r == "N/A"
    ensures |files| > 0 && SplitExt(files[LargestIndex(files)].path).1 == "" ==> r == "N/A"
    ensures |files| > 0 && SplitExt(files[LargestIndex(files)].path).1 != "" ==>
      var ext := SplitExt(files[LargestIndex(files)].path).1;
      |r| + 1 == |ext| && forall k :: 0 <= k < |r| ==> r[k] == Upper(ext[k + 1])
  {
    if |files| == 0 then "N/A"
    else
      var ext := SplitExt(files[LargestIndex(files)].path).1;
      if ext == "" then "N/A" else UpperStr(ext[1..])
  }

  /** The dominant type ignores every file but the largest: reordering the
      smaller files or adding a smaller one never changes it. */
  lemma {:induction false} DominantIgnoresSmaller(files: seq<TorrentFile>, f: TorrentFile)
    requires |files| > 0 && f.size <= files[LargestIndex(files)].size
    ensures DominantFileType(files + [f]) == DominantFileType(files)
  {
    var all := files + [f];
    var i := LargestIndex(files);
    assert all[..|all| - 1] == files;
    assert LargestIndex(all) == i;
    assert all[i] == files[i];
  }

  /** `parse_resolution_from_name`. */
  function ParseResolution(name: string): (r: string)
    ensures r in {"4K", "1080p", "720p", "SD", "N/A"}
  {
    var n := LowerStr(name);
    if Contains(n, "2160p") || Contains(n, "4k") || Contains(n, "uhd") then "4K"
    else if Contains(n, "1080p") then "1080p"
    else if Contains(n, "720p") then "720p"
    else if Contains(n, "480p") || Contains(n, "sd") || Contains(n, "dvdrip") then "SD"
    else "N/A"
  }

  /** The priority order of the labels. */
  function ResolutionRank(res: string): nat {
    if res == "4K" then 4
    else if res == "1080p" then 3
    else if res == "720p" then 2
    else if res == "SD" then 1
    else 0
  }

  /** Appending text never lowers the detected resolution: a higher label
      always wins over a lower one found in the same name. */
  lemma ResolutionMonotone(a: string, b: string)
    ensures ResolutionRank(ParseResolution(a + b)) >= ResolutionRank(ParseResolution(a))
  {
    LowerStrConcat(a, b);
    var la := LowerStr(a);
    var lb := LowerStr(b);
    if Contains(la, "2160p") { ContainsInPrefix(la, lb, "2160p"); }
    if Contains(la, "4k") { ContainsInPrefix(la, lb, "4k"); }
    if Contains(la, "uhd") { ContainsInPrefix(la, lb, "uhd"); }
    if Contains(la, "1080p") { ContainsInPrefix(la, lb, "1080p"); }
    if Contains(la, "720p") { ContainsInPrefix(la, lb, "720p"); }
    if Contains(la, "480p") { ContainsInPrefix(la, lb, "480p"); }
    if Contains(la, "sd") { ContainsInPrefix(la, lb, "sd"); }
    if Contains(la, "dvdrip") { ContainsInPrefix(la, lb, "dvdrip"); }
  }

  /** Detection ignores case. */
  lemma ResolutionIgnoresCase(name: string)
    ensures ParseResolution(UpperStr(name)) == ParseResolution(name)
  {
    assert LowerStr(UpperStr(name)) == LowerStr(name) by {
      forall k | 0 <= k < |name|
        ensures Lower(Upper(name[k])) == Lower(name[k])
      {
        var c := name[k];
        if IsLower(c) {
          assert (c as int - 32 + 32) as char == c;
        }
      }
    }
  }

  // ---------------------------------------------------------------------------
  // validate_torrent_files

  predicate IsLarge(f: TorrentFile) {
    f.size > LargeFileBytes
  }

  /** The path's extension, lower-cased, is `.mkv` or `.mp4`. */
  predicate AllowedPath(path: string) {
    LowerStr(SplitExt(path).1) in AllowedExtensions
  }

  function UnsupportedMessage(ext: string): string {
    "contains an unsupported file type ('" + ext + "'). I can only download .mkv and .mp4 files."
  }

  /** `validate_torrent_files`: `None` for an acceptable torrent, else the reason. */
  function ValidateTorrentFiles(files: seq<TorrentFile>): (r: Option<string>)
    ensures |files| == 0 ==> r == Some("the torrent contains no files.")
    ensures r.None? <==>
      |files| > 0
      && ((exists i :: 0 <= i < |files| && IsLarge(files[i])) ==> exists i :: 0 <= i < |files| && IsLarge(files[i]) && AllowedPath(files[i].path))
      && ((forall i :: 0 <= i < |files| ==> !IsLarge(files[i])) ==> AllowedPath(files[LargestIndex(files)].path))
    ensures |files| > 0 && r.Some? ==> r == Some(UnsupportedMessage(SplitExt(files[LargestIndex(files)].path).1))
  {
    if |files| == 0 then Some("the torrent contains no files.")
    else
      var largestExt := SplitExt(files[LargestIndex(files)].path).1;
      if exists i :: 0 <= i < |files| && IsLarge(files[i]) then
        if exists i :: 0 <= i < |files| && IsLarge(files[i]) && AllowedPath(files[i].path) then None
        else Some(UnsupportedMessage(largestExt))
      else if AllowedPath(files[LargestIndex(files)].path) then None
      else Some(UnsupportedMessage(largestExt))
  }

  // ---------------------------------------------------------------------------
  // handle_successful_download

  /** One move of a file, from its download location to its Plex location. */
  datatype Move = Move(src: string, dst: string)

  /** What post-processing did. */
  datatype PostOutcome =
    | PackDone(moves: seq<Move>, scan: string)
    | SingleDone(move: Move, scan: string, cleanName: string)
    | PostFailed(failure: Failure)

  /** The oracles: the Wikipedia episode lookup (episode title, corrected show
      title), the file move (`Some(message)` when it raises) and the Plex
      server's answer. */
  datatype World = World(
    wiki: (string, int, int) -> (Option<string>, Option<string>),
    move: Move -> Option<string>,
    plexConfigured: bool,
    plexOk: bool)

  /** The first file, in torrent order, with an allowed extension. */
  function FirstAllowed(files: seq<TorrentFile>, from: nat): (r: Option<nat>)
    requires from <= |files|
    ensures r.Some? ==> from <= r.value < |files| && AllowedPath(files[r.value].path)
    ensures r.Some? ==> forall j :: from <= j < r.value ==> !AllowedPath(files[j].path)
    ensures r.None? ==> forall j :: from <= j < |files| ==> !AllowedPath(files[j].path)
  {
    Seqs.FirstIndexFrom(files, AllowedFile, from)
  }

  predicate AllowedFile(f: TorrentFile) {
    AllowedPath(f.path)
  }

  /** A torrent that passed validation always has a file the single-file mode
      can place. */
  lemma ValidatedHasTarget(files: seq<TorrentFile>)
    requires ValidateTorrentFiles(files).None?
    ensures FirstAllowed(files, 0).Some?
  {
    if exists i :: 0 <= i < |files| && IsLarge(files[i]) {
      var i :| 0 <= i < |files| && IsLarge(files[i]) && AllowedPath(files[i].path);
    } else {
      var i := LargestIndex(files);
      assert AllowedPath(files[i].path);
    }
  }

  /** The record a season-pack file is processed with: the file's own parse,
      overridden with the pack's title and season, typed as TV. */
  function PackRecord(parsed: ParsedName, info: Dict): (d: Dict)
    ensures Get(d, "type") == VStr("tv") && Get(d, "title") == Get(info, "title") && Get(d, "season") == Get(info, "season")
    ensures Get(d, "episode") == if parsed.TvName? then VInt(parsed.episode) else VNone
  {
    NameDict(parsed)["title" := Get(info, "title")]["season" := Get(info, "season")]["type" := VStr("tv")]
  }

  /** The title is a string and the season and the episode are ints. */
  predicate RecordEligible(d: Dict) {
    Get(d, "title").VStr? && IntLike(Get(d, "season")).Some? && IntLike(Get(d, "episode")).Some?
  }

  /** A pack file is processed when its extension is allowed and its record
      is eligible. */
  predicate PackEligible(f: TorrentFile, info: Dict) {
    AllowedPath(f.path) && RecordEligible(PackRecord(ParseTorrentName(Basename(f.path)), info))
  }

  /** Eligibility in the pack's and the file name's own terms: the pack
      record has a string title and an int season, and the file's name parses
      as an episode. */
  lemma PackEligibleIff(f: TorrentFile, info: Dict)
    ensures PackEligible(f, info) <==>
      && AllowedPath(f.path)
      && Get(info, "title").VStr?
      && IntLike(Get(info, "season")).Some?
      && ParseTorrentName(Basename(f.path)).TvName?
  {
  }

  /** The record after the Wikipedia lookup: the episode title is set, and the
      show title is replaced when Wikipedia corrected it. */
  function WithLookup(d: Dict, lookup: (Option<string>, Option<string>)): (r: Dict)
    ensures Get(r, "type") == Get(d, "type") && Get(r, "season") == Get(d, "season") && Get(r, "episode") == Get(d, "episode")
    ensures Get(r, "title") == if lookup.1.Some? && lookup.1.value != "" then VStr(lookup.1.value) else Get(d, "title")
    ensures Get(r, "episode_title") == if lookup.0.Some? then VStr(lookup.0.value) else VNone
  {
    var d1 := d["episode_title" := if lookup.0.Some? then VStr(lookup.0.value) else VNone];
    if lookup.1.Some? && lookup.1.value != "" then d1["title" := VStr(lookup.1.value)] else d1
  }

  /** An eligible TV record gets a folder and a file name whenever a default
      save path exists. */
  lemma EligibleRecordPlaces(d: Dict, ext: string, savePaths: map<string, string>)
    requires RecordEligible(d) && Get(d, "type") == VStr("tv")
    requires Get(d, "episode_title").VStr? || Get(d, "episode_title").VNone?
    requires "default" in savePaths
    ensures DestinationPath(d, savePaths).Ok? && GeneratePlexFilename(d, ext).Ok?
  {
    assert "title" in d && "season" in d && "episode" in d;
    assert TitleText(d, "Unknown Show").Ok? && TitleText(d, "Unknown Title").Ok?;
  }

  /** The move planned for one pack file, after the Wikipedia lookup. */
  function PlanMove(d: Dict, path: string, initialPath: string, savePaths: map<string, string>, w: World): (r: Result<Move, Failure>)
    requires RecordEligible(d) && Get(d, "type") == VStr("tv")
    ensures "default" in savePaths ==> r.Ok? && r.value.src == PathJoin(initialPath, path)
    ensures "default" !in savePaths ==> r == Err(KeyError("default"))
  {
    var lookup := w.wiki(Get(d, "title").s, IntLike(Get(d, "season")).value, IntLike(Get(d, "episode")).value);
    var d2 := WithLookup(d, lookup);
    assert "default" in savePaths ==> DestinationPath(d2, savePaths).Ok? && GeneratePlexFilename(d2, SplitExt(path).1).Ok? by {
      if "default" in savePaths {
        EligibleRecordPlaces(d2, SplitExt(path).1, savePaths);
      }
    }
    match DestinationPath(d2, savePaths)
    case Err(e) => Err(e)
    case Ok(dest) =>
      match GeneratePlexFilename(d2, SplitExt(path).1)
      case Err(e) => Err(e)
      case Ok(name) => Ok(Move(PathJoin(initialPath, path), PathJoin(dest, name)))
  }

  /** What the pack loop does with one file: skip it, or plan its move. */
  datatype PackItem = Skipped | Planned(plan: Result<Move, Failure>)

  function PackItemFor(f: TorrentFile, info: Dict, initialPath: string, savePaths: map<string, string>, w: World): (r: PackItem)
    ensures r.Planned? <==> PackEligible(f, info)
    ensures r.Planned? && "default" in savePaths ==> r.plan.Ok? && r.plan.value.src == PathJoin(initialPath, f.path)
    ensures r.Planned? && "default" !in savePaths ==> r.plan == Err(KeyError("default"))
  {
    if !AllowedPath(f.path) then Skipped
    else
      var d := PackRecord(ParseTorrentName(Basename(f.path)), info);
      if RecordEligible(d) then Planned(PlanMove(d, f.path, initialPath, savePaths, w)) else Skipped
  }

  function PackItems(files: seq<TorrentFile>, info: Dict, initialPath: string, savePaths: map<string, string>, w: World): (r: seq<PackItem>)
    ensures |r| == |files|
    ensures forall i :: 0 <= i < |files| ==> r[i] == PackItemFor(files[i], info, initialPath, savePaths, w)
  {
    seq(|files|, i requires 0 <= i < |files| => PackItemFor(files[i], info, initialPath, savePaths, w))
  }

  /** The pack loop from item `i` on: skip or move each file in order; the
      first failure aborts. */
  function RunPack(items: seq<PackItem>, i: nat, move: Move -> Option<string>): (r: Result<seq<Move>, Failure>)
    requires i <= |items|
    ensures r.Ok? ==> |r.value| <= |items| - i
    decreases |items| - i
  {
    if i == |items| then Ok([])
    else match items[i]
      case Skipped => RunPack(items, i + 1, move)
      case Planned(Err(e)) => Err(e)
      case Planned(Ok(m)) =>
        match move(m)
        case Some(msg) => Err(MoveFailed(msg))
        case None =>
          match RunPack(items, i + 1, move)
          case Err(e) => Err(e)
          case Ok(ms) => Ok([m] + ms)
  }

  /** `handle_successful_download`. */
  function HandleSuccessfulDownload(files: seq<TorrentFile>, info: Dict, initialPath: string,
                                    savePaths: map<string, string>, deferScan: bool, w: World): (r: PostOutcome)
    ensures Truthy(Get(info, "is_season_pack")) ==> !r.SingleDone?
    ensures Truthy(Get(info, "is_season_pack")) && r.PackDone? ==> r.scan == TriggerScan(VStr("tv"), w.plexConfigured, w.plexOk)
    ensures !Truthy(Get(info, "is_season_pack")) ==> !r.PackDone?
    ensures !Truthy(Get(info, "is_season_pack")) && FirstAllowed(files, 0).None? ==> r == PostFailed(FileNotFound)
    ensures !Truthy(Get(info, "is_season_pack")) && r.SingleDone? ==>
      FirstAllowed(files, 0).Some? && r.move.src == PathJoin(initialPath, files[FirstAllowed(files, 0).value].path)
    ensures r.SingleDone? && deferScan ==> r.scan == ""
  {
    if Truthy(Get(info, "is_season_pack")) then
      match RunPack(PackItems(files, info, initialPath, savePaths, w), 0, w.move)
      case Err(e) => PostFailed(e)
      case Ok(ms) => PackDone(ms, TriggerScan(VStr("tv"), w.plexConfigured, w.plexOk))
    else
      match FirstAllowed(files, 0)
      case None => PostFailed(FileNotFound)
      case Some(k) =>
        var target := files[k].path;
        var ext := SplitExt(target).1;
        match GeneratePlexFilename(info, ext)
        case Err(e) => PostFailed(e)
        case Ok(name) =>
          match DestinationPath(info, savePaths)
          case Err(e) => PostFailed(e)
          case Ok(dest) =>
            var m := Move(PathJoin(initialPath, target), PathJoin(dest, name));
            match w.move(m)
            case Some(msg) => PostFailed(MoveFailed(msg))
            case None =>
              var scan := if deferScan then "" else TriggerScan(Get(info, "type"), w.plexConfigured, w.plexOk);
              var clean := if "title" in info && info["title"].VStr? then info["title"].s else "Download";
              SingleDone(m, scan, clean)
  }

  /** A single film is moved from its first playable file to
      "<movies root>/<title> (<year>)<ext>", and its scan is the Movies one
      unless deferred. */
  lemma SingleMoviePlacement(files: seq<TorrentFile>, title: string, year: string, initialPath: string,
                             savePaths: map<string, string>, deferScan: bool, w: World)
    requires "default" in savePaths && FirstAllowed(files, 0).Some?
    requires forall m :: w.move(m).None?
    ensures var k := FirstAllowed(files, 0).value;
      var root := if "movies" in savePaths then savePaths["movies"] else savePaths["default"];
      HandleSuccessfulDownload(files, MovieInfo(title, year), initialPath, savePaths, deferScan, w)
      == SingleDone(Move(PathJoin(initialPath, files[k].path),
                         PathJoin(root, SafeName(title) + " (" + year + ")" + SplitExt(files[k].path).1)),
                    if deferScan then "" else TriggerScan(VStr("movie"), w.plexConfigured, w.plexOk),
                    title)
  {
    var info := MovieInfo(title, year);
    MovieInfoFields(title, year);
    var k := FirstAllowed(files, 0).value;
    var ext := SplitExt(files[k].path).1;
    var root := if "movies" in savePaths then savePaths["movies"] else savePaths["default"];
    MovieFilename(title, year, ext);
    assert DestinationPath(info, savePaths) == Ok(root);
    var m := Move(PathJoin(initialPath, files[k].path), PathJoin(root, SafeName(title) + " (" + year + ")" + ext));
    assert w.move(m).None?;
  }

  lemma MovieInfoFields(title: string, year: string)
    ensures !Truthy(Get(MovieInfo(title, year), "is_season_pack"))
    ensures Get(MovieInfo(title, year), "type") == VStr("movie")
    ensures "title" in MovieInfo(title, year) && MovieInfo(title, year)["title"] == VStr(title)
  {
  }

  // ---------------------------------------------------------------------------
  // The pack loop

  /** Number of planned items from `i` on. */
  function CountPlanned(items: seq<PackItem>, i: nat): (n: nat)
    requires i <= |items|
    ensures n <= |items| - i
    decreases |items| - i
  {
    if i == |items| then 0 else (if items[i].Planned? then 1 else 0) + CountPlanned(items, i + 1)
  }

  /** Number of files from `i` on that the pack loop processes. */
  function CountEligible(files: seq<TorrentFile>, i: nat, info: Dict): (n: nat)
    requires i <= |files|
    ensures n <= |files| - i
    decreases |files| - i
  {
    if i == |files| then 0 else (if PackEligible(files[i], info) then 1 else 0) + CountEligible(files, i + 1, info)
  }

  lemma {:induction false} CountsAgree(files: seq<TorrentFile>, items: seq<PackItem>, i: nat, info: Dict)
    requires |items| == |files| && i <= |files|
    requires forall j :: 0 <= j < |files| ==> (items[j].Planned? <==> PackEligible(files[j], info))
    ensures CountPlanned(items, i) == CountEligible(files, i, info)
    decreases |files| - i
  {
    if i < |files| {
      CountsAgree(files, items, i + 1, info);
    }
  }

  /** When every plan succeeds and every move goes through, the loop moves
      one file per planned item, in order, each being one of the plans. */
  lemma {:induction false} RunPackAllMoved(items: seq<PackItem>, i: nat, move: Move -> Option<string>)
    requires i <= |items|
    requires forall j :: i <= j < |items| && items[j].Planned? ==> items[j].plan.Ok?
    requires forall m :: move(m).None?
    ensures var r := RunPack(items, i, move);
      && r.Ok?
      && |r.value| == CountPlanned(items, i)
      && forall k :: 0 <= k < |r.value| ==> exists j :: i <= j < |items| && items[j].Planned? && r.value[k] == items[j].plan.value
    decreases |items| - i
  {
    if i < |items| {
      RunPackAllMoved(items, i + 1, move);
      if items[i].Planned? {
        var m := items[i].plan.value;
        var ms := RunPack(items, i + 1, move).value;
        assert RunPack(items, i, move) == Ok([m] + ms);
        forall k | 0 <= k < |[m] + ms|
          ensures exists j :: i <= j < |items| && items[j].Planned? && ([m] + ms)[k] == items[j].plan.value
        {
          if k == 0 {
            assert items[i].Planned? && ([m] + ms)[0] == items[i].plan.value;
          } else {
            assert ([m] + ms)[k] == ms[k - 1];
          }
        }
      } else {
        var rest := RunPack(items, i + 1, move);
        assert rest.Ok? && forall k :: 0 <= k < |rest.value| ==> exists j :: i + 1 <= j < |items| && items[j].Planned? && rest.value[k] == items[j].plan.value;
        assert items[i].Skipped?;
        assert RunPack(items, i, move) == rest;
        assert CountPlanned(items, i) == CountPlanned(items, i + 1);
        forall k | 0 <= k < |rest.value|
          ensures exists j :: i <= j < |items| && items[j].Planned? && rest.value[k] == items[j].plan.value
        {
          var j :| i + 1 <= j < |items| && items[j].Planned? && rest.value[k] == items[j].plan.value;
          assert i <= j;
        }
      }
    }
  }

  /** Skipped items do nothing. */
  lemma {:induction false} RunPackSkips(items: seq<PackItem>, i: nat, k: nat, move: Move -> Option<string>)
    requires i <= k <= |items|
    requires forall j :: i <= j < k ==> items[j].Skipped?
    ensures RunPack(items, i, move) == RunPack(items, k, move)
    decreases k - i
  {
    if i < k {
      RunPackSkips(items, i + 1, k, move);
    }
  }

  /** When every move succeeds and a default save path exists, a pack moves
      exactly its eligible files, each from where it was downloaded, and
      reports success with one TV scan. */
  lemma PackMovesEligible(files: seq<TorrentFile>, info: Dict, initialPath: string,
                          savePaths: map<string, string>, deferScan: bool, w: World)
    requires Truthy(Get(info, "is_season_pack")) && "default" in savePaths
    requires forall m :: w.move(m).None?
    ensures var r := HandleSuccessfulDownload(files, info, initialPath, savePaths, deferScan, w);
      && r.PackDone?
      && |r.moves| == CountEligible(files, 0, info)
      && forall k :: 0 <= k < |r.moves| ==>
           exists j :: 0 <= j < |files| && PackEligible(files[j], info) && r.moves[k].src == PathJoin(initialPath, files[j].path)
  {
    var items := PackItems(files, info, initialPath, savePaths, w);
    RunPackAllMoved(items, 0, w.move);
    CountsAgree(files, items, 0, info);
  }

  /** A pack whose record has no string title processes nothing and still
      reports success, with the one TV scan. */
  lemma PackWithoutTitleMovesNothing(files: seq<TorrentFile>, info: Dict, initialPath: string,
                                     savePaths: map<string, string>, deferScan: bool, w: World)
    requires Truthy(Get(info, "is_season_pack")) && !Get(info, "title").VStr?
    ensures HandleSuccessfulDownload(files, info, initialPath, savePaths, deferScan, w)
      == PackDone([], TriggerScan(VStr("tv"), w.plexConfigured, w.plexOk))
  {
    var items := PackItems(files, info, initialPath, savePaths, w);
    forall j | 0 <= j < |files|
      ensures items[j].Skipped?
    {
      PackEligibleIff(files[j], info);
    }
    RunPackSkips(items, 0, |items|, w.move);
  }

  /** A failed move aborts the whole pack with that failure. */
  lemma PackMoveFailureAborts(files: seq<TorrentFile>, info: Dict, initialPath: string,
                              savePaths: map<string, string>, deferScan: bool, w: World, k: nat)
    requires Truthy(Get(info, "is_season_pack")) && "default" in savePaths
    requires k < |files|
    requires forall j :: 0 <= j < k ==> !PackEligible(files[j], info)
    requires PackEligible(files[k], info)
    requires w.move(PackItemFor(files[k], info, initialPath, savePaths, w).plan.value).Some?
    ensures HandleSuccessfulDownload(files, info, initialPath, savePaths, deferScan, w)
      == PostFailed(MoveFailed(w.move(PackItemFor(files[k], info, initialPath, savePaths, w).plan.value).value))
  {
    var items := PackItems(files, info, initialPath, savePaths, w);
    RunPackSkips(items, 0, k, w.move);
  }

  // ---------------------------------------------------------------------------
  // Messages

  /** `telegram.helpers.escape_markdown` (Markdown version 1). */
  const MarkdownV1Special: set<char> := {'_', '*', '`', '['}

  /** The text of a failure as `str(e)` renders the parts the model knows. */
  function FailureText(f: Failure): string {
    match f
    case KeyError(k) => "'" + k + "'"
    case TypeError => "TypeError"
    case ValueError => "ValueError"
    case FileNotFound => "No valid media file (.mkv, .mp4) found in the completed torrent."
    case MoveFailed(m) => m
  }

  /** The success marker as the source spells it. */
  const SuccessHead: string := "âœ… *Success\\!*\n"

  /** The failure marker as the source spells it. */
  const ErrorHead: string := "âŒ *Post-Processing Error*\n"

  /** The message `handle_successful_download` returns. */
  function OutcomeMessage(o: PostOutcome): (r: string)
    ensures o.PostFailed? <==> !StartsWith(r, SuccessHead)
  {
    match o
    case PackDone(ms, scan) =>
      SuccessHead + "Processed and moved " + NatToString(|ms|) + " episodes from the season pack\\." + scan
    case SingleDone(_, scan, clean) =>
      SuccessHead + "Renamed and moved to Plex Server:\n`" + Escape(clean, MarkdownV1Special) + "`" + scan
    case PostFailed(f) =>
      var r := ErrorHead + "Download completed but failed during file handling.\n\n`"
        + Escape(FailureText(f), MarkdownV1Special) + "`";
      assert r[1] == ErrorHead[1] != SuccessHead[1];
      r
  }
}
