/** `services/search_logic.py`: which configured sites are searched, how their
    results are merged and ranked, and how a library lookup is shaped. The
    scrapers themselves, the file-system walk and the fuzzy ratio are
    parameters. */
module SearchLogic {
  import opened Wrappers
  import opened Values
  import opened Sorting
  import Paths

  /** The configuration list a media type reads. */
  function ConfigKey(mediaType: string): (k: string)
    ensures k == "movies" <==> mediaType == "movie"
    ensures k == "movies" || k == "tv"
  {
    if mediaType == "movie" then "movies" else "tv"
  }

  /** The site names that have a scraper. */
  const ScraperNames: set<string> := {"1337x", "YTS.mx"}

  /** One entry of a `websites` list: a dictionary, or something else. */
  datatype SiteItem = NotADict | SiteDict(d: Dict)

  /** The value under a media key of `websites`: a list, or something else. */
  datatype SiteList = NotAList | Sites(items: seq<SiteItem>)

  /** A site that is searched: its name and its `search_url`. */
  datatype Task = Task(name: string, url: Value)

  /** `site_info.get("enabled", True)` is truthy. */
  predicate Enabled(d: Dict) {
    "enabled" !in d || Truthy(d["enabled"])
  }

  /** The search task of one configured site, if it gets one: a dictionary
      that is enabled, has a non-empty string name with a scraper, and a truthy
      `search_url`. */
  function TaskOf(item: SiteItem): (t: Option<Task>)
    ensures t.Some? <==> item.SiteDict? && Enabled(item.d) && Get(item.d, "name").VStr?
                         && Get(item.d, "name").s in ScraperNames && Truthy(Get(item.d, "search_url"))
    ensures t.Some? ==> t.value == Task(Get(item.d, "name").s, Get(item.d, "search_url"))
  {
    match item
    case NotADict => None
    case SiteDict(d) =>
      if !Enabled(d) then None
      else match Get(d, "name")
        case VStr(name) =>
          if name == "" || !Truthy(Get(d, "search_url")) || name !in ScraperNames then None
          else Some(Task(name, Get(d, "search_url")))
        case _ => None
  }

  /** The tasks created, in configuration order. */
  function SelectSites(items: seq<SiteItem>): (r: seq<Task>)
    ensures |r| <= |items|
    ensures forall k :: 0 <= k < |r| ==> r[k].name in ScraperNames && Truthy(r[k].url)
  {
    if |items| == 0 then []
    else
      var t := TaskOf(items[0]);
      (if t.Some? then [t.value] else []) + SelectSites(items[1..])
  }

  /** Selection goes item by item: it distributes over concatenation. */
  lemma {:induction false} SelectSitesAppend(a: seq<SiteItem>, b: seq<SiteItem>)
    ensures SelectSites(a + b) == SelectSites(a) + SelectSites(b)
  {
    if |a| == 0 {
      assert a + b == b;
    } else {
      assert (a + b)[0] == a[0];
      assert (a + b)[1..] == a[1..] + b;
      SelectSitesAppend(a[1..], b);
    }
  }

  /** Every site that qualifies is searched, and nothing else is. */
  lemma {:induction false} SelectSitesComplete(items: seq<SiteItem>, t: Task)
    ensures t in SelectSites(items) <==> exists k :: 0 <= k < |items| && TaskOf(items[k]) == Some(t)
  {
    if |items| > 0 {
      SelectSitesComplete(items[1..], t);
      var head := TaskOf(items[0]);
      assert SelectSites(items) == (if head.Some? then [head.value] else []) + SelectSites(items[1..]);
      if exists k :: 0 <= k < |items| && TaskOf(items[k]) == Some(t) {
        var k :| 0 <= k < |items| && TaskOf(items[k]) == Some(t);
        if k > 0 {
          assert items[1..][k - 1] == items[k];
        }
      }
      if exists k :: 0 <= k < |items[1..]| && TaskOf(items[1..][k]) == Some(t) {
        var k :| 0 <= k < |items[1..]| && TaskOf(items[1..][k]) == Some(t);
        assert items[k + 1] == items[1..][k];
      }
    }
  }

  /** `x.get('score', 0)` as a sort key. */
  function ScoreKey(h: Dict): (k: Key)
    ensures "score" !in h ==> k == (0, 0)
    ensures "score" in h && h["score"].VInt? ==> k == (h["score"].i, 0)
  {
    if "score" !in h then (0, 0)
    else match h["score"]
      case VInt(i) => (i, 0)
      case VBool(b) => (if b then 1 else 0, 0)
      case _ => (0, 0)
  }

  /** The results of every task, one list after the other. */
  function Gather(tasks: seq<Task>, scrape: Task -> seq<Dict>): (r: seq<Dict>)
  {
    if |tasks| == 0 then [] else scrape(tasks[0]) + Gather(tasks[1..], scrape)
  }

  /** Each task contributes exactly its own results. */
  lemma {:induction false} GatherContains(tasks: seq<Task>, scrape: Task -> seq<Dict>, k: nat)
    requires k < |tasks|
    ensures multiset(scrape(tasks[k])) <= multiset(Gather(tasks, scrape))
  {
    if k > 0 {
      GatherContains(tasks[1..], scrape, k - 1);
      assert tasks[1..][k - 1] == tasks[k];
    }
  }

  /** `orchestrate_searches`: the merged results of the selected sites,
      ranked by score with a missing score counted as 0. */
  function OrchestrateSearches(mediaType: string, websites: map<string, SiteList>, scrape: Task -> seq<Dict>): (r: seq<Dict>)
    ensures var key := ConfigKey(mediaType);
      key !in websites || websites[key].NotAList? || websites[key].items == [] ==> r == []
    ensures var key := ConfigKey(mediaType);
      key in websites && websites[key].Sites? ==>
        var all := Gather(SelectSites(websites[key].items), scrape);
        multiset(r) == multiset(all) && SortedDesc(r, ScoreKey)
        && forall k :: WithKey(r, ScoreKey, k) == WithKey(all, ScoreKey, k)
  {
    var key := ConfigKey(mediaType);
    var sites := if key in websites then websites[key] else Sites([]);
    if sites.NotAList? || sites.items == [] then []
    else
      var tasks := SelectSites(sites.items);
      if tasks == [] then []
      else
        var all := Gather(tasks, scrape);
        assert forall k :: WithKey(SortDesc(all, ScoreKey), ScoreKey, k) == WithKey(all, ScoreKey, k) by {
          forall k { SortStable(all, ScoreKey, k); }
        }
        SortDesc(all, ScoreKey)
  }

  /** With no site selected nothing is returned, whatever the scrapers would
      have found. */
  lemma NoTaskNoResults(mediaType: string, websites: map<string, SiteList>, scrape: Task -> seq<Dict>)
    requires ConfigKey(mediaType) in websites && websites[ConfigKey(mediaType)].Sites?
    requires SelectSites(websites[ConfigKey(mediaType)].items) == []
    ensures OrchestrateSearches(mediaType, websites, scrape) == []
  {
    var all := Gather([], scrape);
    assert all == [];
  }

  /** Every result of a searched site appears in the merged list. */
  lemma SiteResultsKept(mediaType: string, websites: map<string, SiteList>, scrape: Task -> seq<Dict>, k: nat)
    requires ConfigKey(mediaType) in websites && websites[ConfigKey(mediaType)].Sites?
    requires k < |SelectSites(websites[ConfigKey(mediaType)].items)|
    ensures multiset(scrape(SelectSites(websites[ConfigKey(mediaType)].items)[k])) <= multiset(OrchestrateSearches(mediaType, websites, scrape))
  {
    GatherContains(SelectSites(websites[ConfigKey(mediaType)].items), scrape, k);
  }

  // ---------------------------------------------------------------------------
  // find_media_by_name

  /** One step of `os.walk`: a directory, its sub-directories and its files. */
  datatype WalkEntry = WalkEntry(root: string, dirs: seq<string>, files: seq<string>)

  /** The result of a library lookup. */
  datatype Found = NotFound | One(path: string) | Many(paths: seq<string>)

  /** The match threshold of the fuzzy ratio. */
  const MatchThreshold := 85

  /** Paths whose name scores strictly above the threshold, in walk order. */
  function MatchesIn(root: string, names: seq<string>, score: string -> int): (r: seq<string>)
    ensures |r| <= |names|
  {
    if |names| == 0 then []
    else (if score(names[0]) > MatchThreshold then [Paths.PathJoin(root, names[0])] else []) + MatchesIn(root, names[1..], score)
  }

  function Matches(walk: seq<WalkEntry>, directories: bool, score: string -> int): seq<string>
  {
    if |walk| == 0 then []
    else MatchesIn(walk[0].root, if directories then walk[0].dirs else walk[0].files, score)
         + Matches(walk[1..], directories, score)
  }

  /** A name that scores above the threshold is reported under its directory. */
  lemma {:induction false} MatchesInComplete(root: string, names: seq<string>, score: string -> int, k: nat)
    requires k < |names| && score(names[k]) > MatchThreshold
    ensures Paths.PathJoin(root, names[k]) in MatchesIn(root, names, score)
  {
    if k > 0 {
      MatchesInComplete(root, names[1..], score, k - 1);
      assert names[1..][k - 1] == names[k];
    }
  }

  /** Shapes the matches: none, a single path, or the whole list. */
  function Shape(matches: seq<string>): (r: Found)
    ensures r.NotFound? <==> |matches| == 0
    ensures r.One? <==> |matches| == 1
    ensures r.One? ==> r.path == matches[0]
    ensures r.Many? ==> r.paths == matches && |matches| >= 2
  {
    if |matches| == 0 then NotFound
    else if |matches| == 1 then One(matches[0])
    else Many(matches)
  }

  /** `find_media_by_name`: directories (or files) under the library folder
      of the media type whose fuzzy ratio against the query exceeds 85.
      `present` is `os.path.exists`, `walk` is `os.walk`, `ratio(query, name)`
      is thefuzz's partial ratio. */
  function FindMediaByName(mediaType: string, query: string, savePaths: map<string, string>, searchMode: string,
                           present: string -> bool, walk: string -> seq<WalkEntry>, ratio: (string, string) -> int): (r: Found)
    ensures var key := if mediaType == "movie" then "movies" else "tv_shows";
      key !in savePaths || savePaths[key] == "" || !present(savePaths[key]) ==> r.NotFound?
  {
    var key := if mediaType == "movie" then "movies" else "tv_shows";
    if key !in savePaths || savePaths[key] == "" || !present(savePaths[key]) then NotFound
    else Shape(Matches(walk(savePaths[key]), searchMode == "directory", name => ratio(query, name)))
  }

  /** A lone close match is returned as a bare path. */
  lemma SingleMatchIsPath(mediaType: string, query: string, savePaths: map<string, string>,
                          present: string -> bool, walk: string -> seq<WalkEntry>, ratio: (string, string) -> int,
                          root: string, dir: string)
    requires mediaType == "movie" && "movies" in savePaths && savePaths["movies"] != "" && present(savePaths["movies"])
    requires walk(savePaths["movies"]) == [WalkEntry(root, [dir], [])]
    requires ratio(query, dir) > MatchThreshold
    ensures FindMediaByName(mediaType, query, savePaths, "directory", present, walk, ratio) == One(Paths.PathJoin(root, dir))
  {
    var w := walk(savePaths["movies"]);
    var score := name => ratio(query, name);
    assert MatchesIn(root, [dir], score) == [Paths.PathJoin(root, dir)] by {
      assert [dir][1..] == [];
    }
    assert Matches(w, true, score) == MatchesIn(root, [dir], score) + Matches([], true, score) by {
      assert w[1..] == [];
    }
  }
}
