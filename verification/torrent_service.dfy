/** Turning what the user sent into torrent metadata
    (`services/torrent_service.py`): routing the input, the `.torrent`
    download, the magnet links scraped from a web page, and the metadata
    fetch with its 30-second poll. libtorrent, HTTP, the page scraper and the
    monotonic clock are oracles; of the progress messages only the error
    shown is recorded. */
module TorrentService {
  import opened Wrappers
  import opened Strings
  import MediaManager
  import Config

  const MagnetPrefix := "magnet:?xt=urn:btih:"
  const FetchTimeoutMs := 30000
  const PollIntervalMs := 500
  /** The most metadata polls 30 seconds leave room for at one poll per half second. */
  const MaxPolls := 60
  const TorrentsDir := ".torrents"

  // ---------------------------------------------------------------------------
  // process_user_input routing

  predicate IsHttp(text: string) {
    StartsWith(text, "http://") || StartsWith(text, "https://")
  }

  datatype Route = FetchMagnet | TorrentUrl | WebPage | NotALink

  /** Which handler `process_user_input` hands the text to. */
  function RouteOf(text: string): (r: Route)
    ensures r == FetchMagnet <==> StartsWith(text, MagnetPrefix)
    ensures r == NotALink <==> !StartsWith(text, MagnetPrefix) && !IsHttp(text)
    ensures r == TorrentUrl || r == WebPage <==> IsHttp(text)
    ensures r == TorrentUrl ==> EndsWith(text, ".torrent")
  {
    if StartsWith(text, MagnetPrefix) then
      assert text[..|MagnetPrefix|][0] == text[0] == 'm';
      assert text[..7][0] == text[0];
      FetchMagnet
    else if IsHttp(text) && EndsWith(text, ".torrent") then TorrentUrl
    else if IsHttp(text) then WebPage
    else NotALink
  }

  lemma PrefixKept(a: string, p: string, b: string)
    requires StartsWith(a, p)
    ensures StartsWith(a + b, p)
  {
    assert (a + b)[..|p|] == a[..|p|];
  }

  /** Any http(s) address ending in `.torrent` is downloaded as a torrent file,
      and a magnet link is fetched whatever follows its prefix. */
  lemma RoutesOfLinks(url: string, hash: string)
    requires IsHttp(url)
    ensures RouteOf(url + ".torrent") == TorrentUrl
    ensures RouteOf(MagnetPrefix + hash) == FetchMagnet
  {
    if StartsWith(url, "http://") {
      PrefixKept(url, "http://", ".torrent");
    } else {
      PrefixKept(url, "https://", ".torrent");
    }
    var t := url + ".torrent";
    assert t[|t| - 8..] == ".torrent";
    assert (MagnetPrefix + hash)[..|MagnetPrefix|] == MagnetPrefix;
  }

  // ---------------------------------------------------------------------------
  // _blocking_fetch_metadata

  /** The metadata libtorrent reconstructs from a fetched torrent. */
  datatype TorrentInfo = TorrentInfo(name: string, totalSize: int, files: seq<MediaManager.TorrentFile>, infoHash: string)

  /** One run of the worker as libtorrent and the clock see it: whether parsing
      the link and adding it succeed, the handle id, the monotonic clock in
      milliseconds at each reading (reading 0 is the start), whether metadata is
      there at each poll, the metadata, and whether the handle is still valid at
      the end. */
  datatype FetchWorld = FetchWorld(addOk: bool, handle: nat, clock: nat -> int, hasMetadata: nat -> bool,
                                   metadata: TorrentInfo, validAtEnd: bool)

  /** Each poll is followed by a half-second sleep, so clock readings after the
      first poll are at least 500 ms apart. */
  ghost predicate WellTimed(w: FetchWorld) {
    && (forall k: nat {:trigger w.clock(k + 1)} :: w.clock(k) <= w.clock(k + 1))
    && (forall k: nat {:trigger w.clock(k + 1)} :: k >= 1 ==> w.clock(k) + PollIntervalMs <= w.clock(k + 1))
  }

  lemma {:induction false} ClockAdvances(w: FetchWorld, k: nat)
    requires WellTimed(w)
    ensures w.clock(k + 1) >= w.clock(0) + PollIntervalMs * k
  {
    if k > 0 {
      ClockAdvances(w, k - 1);
      assert w.clock(k) + PollIntervalMs <= w.clock(k + 1);
    }
  }

  /** The first poll at or after `k` that sees metadata while the 30 seconds
      have not run out. */
  function Arrival(w: FetchWorld, k: nat): (r: Option<nat>)
    requires WellTimed(w)
    ensures r.Some? ==>
      k <= r.value < MaxPolls && w.hasMetadata(r.value) && w.clock(r.value + 1) - w.clock(0) < FetchTimeoutMs
    ensures r.Some? ==> forall j :: k <= j < r.value ==> !w.hasMetadata(j)
    decreases FetchTimeoutMs - (w.clock(k + 1) - w.clock(0))
  {
    if w.clock(k + 1) - w.clock(0) >= FetchTimeoutMs then None
    else
      ClockAdvances(w, k);
      ClockAdvances(w, k + 1);
      if w.hasMetadata(k) then Some(k) else Arrival(w, k + 1)
  }

  /** What the worker returns: the metadata when it arrives in time. */
  function FetchResult(w: FetchWorld): (r: Option<TorrentInfo>)
    requires WellTimed(w)
    ensures r.Some? ==> r.value == w.metadata && w.addOk
  {
    if w.addOk && Arrival(w, 0).Some? then Some(w.metadata) else None
  }

  /** The polling loop: check for metadata, sleep half a second, until 30
      seconds have passed since the start. */
  method PollForMetadata(w: FetchWorld) returns (found: bool, polls: nat)
    requires WellTimed(w)
    ensures polls <= MaxPolls
    ensures found <==> Arrival(w, 0).Some?
    ensures found ==> Arrival(w, 0) == Some(polls - 1)
    ensures !found ==> w.clock(polls + 1) - w.clock(0) >= FetchTimeoutMs
    ensures !found ==> forall k :: 0 <= k < polls ==> !w.hasMetadata(k)
  {
    var k: nat := 0;
    while w.clock(k + 1) - w.clock(0) < FetchTimeoutMs
      invariant k <= MaxPolls
      invariant forall j :: 0 <= j < k ==> !w.hasMetadata(j)
      invariant Arrival(w, 0) == Arrival(w, k)
      decreases MaxPolls - k
    {
      PollStep(w, k);
      if w.hasMetadata(k) {
        return true, k + 1;
      }
      k := k + 1;
    }
    PollTimedOut(w, k);
    return false, k;
  }

  /** One poll inside the 30 seconds: it is one of the first 60, and it either
      sees the metadata or leaves the arrival to the later polls. */
  lemma PollStep(w: FetchWorld, k: nat)
    requires WellTimed(w)
    requires w.clock(k + 1) - w.clock(0) < FetchTimeoutMs
    ensures k < MaxPolls
    ensures w.hasMetadata(k) ==> Arrival(w, k) == Some(k)
    ensures !w.hasMetadata(k) ==> Arrival(w, k) == Arrival(w, k + 1)
  {
    ClockAdvances(w, k);
  }

  /** Once the 30 seconds have run out no later poll is made. */
  lemma PollTimedOut(w: FetchWorld, k: nat)
    requires WellTimed(w)
    requires w.clock(k + 1) - w.clock(0) >= FetchTimeoutMs
    ensures Arrival(w, k) == None
  {
  }

  /** `_blocking_fetch_metadata`: add the link to the session, poll for
      metadata until 30 seconds have passed, and remove the handle on every
      way out. */
  method BlockingFetchMetadata(session: set<nat>, w: FetchWorld) returns (meta: Option<TorrentInfo>, after: set<nat>, polls: nat)
    requires WellTimed(w) && w.handle !in session
    ensures meta == FetchResult(w)
    ensures after == session
    ensures polls <= MaxPolls
    ensures !w.addOk ==> polls == 0
  {
    if !w.addOk {
      return None, session, 0;
    }
    after := session + {w.handle};
    var found;
    found, polls := PollForMetadata(w);
    meta := if found then Some(w.metadata) else None;
    after := if w.validAtEnd then after - {w.handle} else session;
  }

  // ---------------------------------------------------------------------------
  // _fetch_and_parse_magnet_details

  /** One entry of `temp_magnet_choices_details`; the size is kept in bytes. */
  datatype MagnetChoice = MagnetChoice(index: nat, resolution: string, sizeBytes: int, fileType: string,
                                       name: string, magnetLink: string, metadata: TorrentInfo)

  function MakeChoice(index: nat, link: string, ti: TorrentInfo): MagnetChoice {
    MagnetChoice(index, MediaManager.ParseResolution(ti.name), ti.totalSize,
                 MediaManager.DominantFileType(ti.files), ti.name, link, ti)
  }

  predicate Offerable(ti: TorrentInfo) {
    ti.totalSize <= Config.MaxTorrentSizeBytes
  }

  /** `c` is the choice made from link `i`: its metadata arrived and is
      within the size limit. */
  predicate IsChoice(links: seq<string>, fetched: seq<Option<TorrentInfo>>, i: nat, c: MagnetChoice)
    requires |fetched| == |links|
  {
    i < |links| && fetched[i].Some? && Offerable(fetched[i].value) && c == MakeChoice(i, links[i], fetched[i].value)
  }

  /** Every choice names link `from` or a later one, carries that link, and
      the choices follow the links' order. */
  predicate InLinkOrder(links: seq<string>, r: seq<MagnetChoice>, from: nat) {
    && (forall i :: 0 <= i < |r| ==> from <= r[i].index < |links| && r[i].magnetLink == links[r[i].index])
    && (forall i, j :: 0 <= i < j < |r| ==> r[i].index < r[j].index)
  }

  /** The choices from links `from` on: those whose metadata arrived and whose
      size is within the limit, in link order. */
  function ParseChoices(links: seq<string>, fetched: seq<Option<TorrentInfo>>, from: nat): (r: seq<MagnetChoice>)
    requires |fetched| == |links| && from <= |links|
    ensures InLinkOrder(links, r, from)
    ensures forall c :: c in r ==> c.sizeBytes <= Config.MaxTorrentSizeBytes
    ensures forall c :: c in r <==> exists i :: from <= i < |links| && IsChoice(links, fetched, i, c)
    decreases |links| - from
  {
    if from == |links| then []
    else
      var rest := ParseChoices(links, fetched, from + 1);
      var r := match fetched[from]
        case Some(ti) =>
          if Offerable(ti) then [MakeChoice(from, links[from], ti)] + rest else rest
        case None => rest;
      ChoicesStep(links, fetched, from, rest, r);
      OrderStep(links, fetched, from, rest, r);
      r
  }

  /** Putting link `from`'s choice in front keeps the choices in link order
      and within the size limit. */
  lemma OrderStep(links: seq<string>, fetched: seq<Option<TorrentInfo>>, from: nat,
                  rest: seq<MagnetChoice>, r: seq<MagnetChoice>)
    requires |fetched| == |links| && from < |links|
    requires InLinkOrder(links, rest, from + 1)
    requires forall c :: c in rest ==> c.sizeBytes <= Config.MaxTorrentSizeBytes
    requires fetched[from].Some? && Offerable(fetched[from].value) ==>
               r == [MakeChoice(from, links[from], fetched[from].value)] + rest
    requires !(fetched[from].Some? && Offerable(fetched[from].value)) ==> r == rest
    ensures InLinkOrder(links, r, from)
    ensures forall c :: c in r ==> c.sizeBytes <= Config.MaxTorrentSizeBytes
  {
    if fetched[from].Some? && Offerable(fetched[from].value) {
      var c := MakeChoice(from, links[from], fetched[from].value);
      assert c.index == from && c.magnetLink == links[from];
      assert c.sizeBytes <= Config.MaxTorrentSizeBytes;
      forall i | 1 <= i < |r| ensures r[i] == rest[i - 1] {
      }
    }
  }

  /** Link `from` contributes its choice, if any, in front of the later ones. */
  lemma ChoicesStep(links: seq<string>, fetched: seq<Option<TorrentInfo>>, from: nat,
                    rest: seq<MagnetChoice>, r: seq<MagnetChoice>)
    requires |fetched| == |links| && from < |links|
    requires forall c :: c in rest <==> exists i :: from + 1 <= i < |links| && IsChoice(links, fetched, i, c)
    requires fetched[from].Some? && Offerable(fetched[from].value) ==>
               r == [MakeChoice(from, links[from], fetched[from].value)] + rest
    requires !(fetched[from].Some? && Offerable(fetched[from].value)) ==> r == rest
    ensures forall c :: c in r <==> exists i :: from <= i < |links| && IsChoice(links, fetched, i, c)
  {
    forall c
      ensures c in r <==> exists i :: from <= i < |links| && IsChoice(links, fetched, i, c)
    {
      if c in r && c !in rest {
        assert IsChoice(links, fetched, from, c);
      }
      if exists i :: from <= i < |links| && IsChoice(links, fetched, i, c) {
        var i :| from <= i < |links| && IsChoice(links, fetched, i, c);
        if i > from {
          assert c in rest;
        }
      }
    }
  }

  // ---------------------------------------------------------------------------
  // The handlers

  /** `context.user_data` as far as this service writes it. */
  datatype UserData = UserData(pendingMagnet: Option<string>, torrentFilePath: Option<string>,
                               magnetChoices: Option<seq<MagnetChoice>>)

  /** The error each handler shows before returning `None`. */
  datatype Failure = NotLink | DownloadFailed | NotATorrent | NoMagnetLinks | NoUsableLinks | MetadataTimeout

  datatype Reply =
    | Acquired(info: TorrentInfo)
    | Failed(failure: Failure)
    | ChoicesOffered(choices: seq<MagnetChoice>)
    /** `user_data` or `bot_data` missing: nothing shown, nothing stored. */
    | NoState
    /** An exception the handler does not catch. */
    | Raised

  /** A `.torrent` download: a request error, an HTTP error status, or the body
      with its parsed torrent (`None` when libtorrent rejects it). */
  datatype DownloadReply = RequestFailed | StatusError | Body(torrent: Option<TorrentInfo>)

  datatype Env = Env(botData: bool, session: set<nat>, download: string -> DownloadReply,
                     scrape: string -> seq<string>, fetch: string -> FetchWorld)

  ghost predicate Fetchable(env: Env) {
    forall link :: WellTimed(env.fetch(link)) && env.fetch(link).handle !in env.session
  }

  /** `fetch_metadata_from_magnet`. */
  method FetchMetadataFromMagnet(link: string, env: Env) returns (reply: Reply)
    requires Fetchable(env)
    ensures !env.botData ==> reply == NoState
    ensures env.botData ==>
      reply == (match FetchResult(env.fetch(link))
                case Some(ti) => Acquired(ti)
                case None => Failed(MetadataTimeout))
  {
    if !env.botData {
      return NoState;
    }
    var meta, _, _ := BlockingFetchMetadata(env.session, env.fetch(link));
    match meta
    case Some(ti) => return Acquired(ti);
    case None => return Failed(MetadataTimeout);
  }

  /** The path the downloaded torrent is saved under. */
  function TorrentFilePath(infoHash: string): string {
    TorrentsDir + "/" + infoHash + ".torrent"
  }

  /** `_handle_torrent_url`. */
  function HandleTorrentUrl(url: string, data: UserData, env: Env): (r: (Reply, UserData))
    ensures r.0.Acquired? <==> env.download(url).Body? && env.download(url).torrent.Some?
    ensures r.0.Acquired? ==> r.1 == data.(torrentFilePath := Some(TorrentFilePath(r.0.info.infoHash)))
    ensures !r.0.Acquired? ==> r.1 == data
    ensures env.download(url).StatusError? ==> r.0 == Raised
  {
    match env.download(url)
    case RequestFailed => (Failed(DownloadFailed), data)
    case StatusError => (Raised, data)
    case Body(None) => (Failed(NotATorrent), data)
    case Body(Some(ti)) => (Acquired(ti), data.(torrentFilePath := Some(TorrentFilePath(ti.infoHash))))
  }

  /** Metadata for every link, in link order (`asyncio.gather` keeps the order). */
  method FetchAll(links: seq<string>, env: Env) returns (fetched: seq<Option<TorrentInfo>>)
    requires Fetchable(env)
    ensures |fetched| == |links|
    ensures forall i :: 0 <= i < |links| ==> fetched[i] == FetchResult(env.fetch(links[i]))
  {
    fetched := [];
    var i := 0;
    while i < |links|
      invariant 0 <= i <= |links| && |fetched| == i
      invariant forall j :: 0 <= j < i ==> fetched[j] == FetchResult(env.fetch(links[j]))
    {
      var meta, _, _ := BlockingFetchMetadata(env.session, env.fetch(links[i]));
      fetched := fetched + [meta];
      i := i + 1;
    }
  }

  /** `_handle_webpage_url`. */
  method HandleWebpageUrl(url: string, data: UserData, env: Env) returns (reply: Reply, after: UserData)
    requires Fetchable(env)
    ensures |env.scrape(url)| == 0 ==> reply == Failed(NoMagnetLinks) && after == data
    ensures |env.scrape(url)| == 1 ==> after == data.(pendingMagnet := Some(env.scrape(url)[0]))
    ensures reply.ChoicesOffered? ==>
      && |env.scrape(url)| > 1
      && |reply.choices| > 0
      && after == data.(magnetChoices := Some(reply.choices))
      && (forall c :: c in reply.choices ==> c.sizeBytes <= Config.MaxTorrentSizeBytes)
      && (forall i, j :: 0 <= i < j < |reply.choices| ==> reply.choices[i].index < reply.choices[j].index)
    ensures reply == Failed(NoUsableLinks) ==> after == data
    ensures reply.Acquired? ==> |env.scrape(url)| == 1
  {
    var links := env.scrape(url);
    if |links| == 0 {
      return Failed(NoMagnetLinks), data;
    }
    if |links| == 1 {
      after := data.(pendingMagnet := Some(links[0]));
      reply := FetchMetadataFromMagnet(links[0], env);
      return;
    }
    if !env.botData {
      return Raised, data;
    }
    var fetched := FetchAll(links, env);
    var choices := ParseChoices(links, fetched, 0);
    if |choices| == 0 {
      return Failed(NoUsableLinks), data;
    }
    return ChoicesOffered(choices), data.(magnetChoices := Some(choices));
  }

  /** `process_user_input`: the torrent metadata when it could be had at once. */
  method ProcessUserInput(text: string, userData: Option<UserData>, env: Env) returns (reply: Reply, after: Option<UserData>)
    requires Fetchable(env)
    ensures userData.None? ==> reply == NoState && after == None
    ensures userData.Some? ==> after.Some?
    ensures userData.Some? && RouteOf(text) == NotALink ==> reply == Failed(NotLink) && after == userData
    ensures userData.Some? && RouteOf(text) == FetchMagnet ==>
      after == Some(userData.value.(pendingMagnet := Some(text)))
      && (reply.Acquired? <==> env.botData && FetchResult(env.fetch(text)).Some?)
    ensures userData.Some? && RouteOf(text) == TorrentUrl ==>
      (reply, after.value) == HandleTorrentUrl(text, userData.value, env)
  {
    if userData.None? {
      return NoState, None;
    }
    var data := userData.value;
    match RouteOf(text)
    case FetchMagnet =>
      after := Some(data.(pendingMagnet := Some(text)));
      reply := FetchMetadataFromMagnet(text, env);
    case TorrentUrl =>
      var r := HandleTorrentUrl(text, data, env);
      reply, after := r.0, Some(r.1);
    case WebPage =>
      var d;
      reply, d := HandleWebpageUrl(text, data, env);
      after := Some(d);
    case NotALink =>
      reply, after := Failed(NotLink), userData;
  }
}
