/** `workflows/search_session.py`: the search conversation's state, kept as a
    JSON-like dictionary under one key of the Telegram user data, with the
    accessors that insist on a field being present. */
module SearchSession {
  import opened Wrappers
  import Values

  /** A value of the untyped payload stored in the user data. A dictionary
      carries its keys in insertion order next to the mapping itself, which is
      what `list(d)` yields. */
  datatype Json =
    | JNone
    | JBool(b: bool)
    | JInt(i: int)
    | JReal(r: real)
    | JStr(s: string)
    | JList(items: seq<Json>)
    | JObj(fields: map<string, Json>, order: seq<string>)

  /** What a conversion or an accessor raises. */
  datatype Raised = SessionError(message: string) | TypeError | ValueError

  /** The text a `SearchSessionError` carries by default (MarkdownV2-escaped). */
  const ContextLostMessage := "\U{2753} Search context has expired\\. Please start over\\."

  /** The user-data key the session lives under. */
  const SessionKey := "search_session"

  /** Python truthiness. */
  predicate Truthy(v: Json) {
    match v
    case JNone => false
    case JBool(b) => b
    case JInt(i) => i != 0
    case JReal(r) => r != 0.0
    case JStr(s) => |s| > 0
    case JList(items) => |items| > 0
    case JObj(fields, _) => |fields| > 0
  }

  /** `a or b`. */
  function Or(a: Json, b: Json): (r: Json)
    ensures Truthy(a) ==> r == a
    ensures !Truthy(a) ==> r == b
  {
    if Truthy(a) then a else b
  }

  /** `d.get(k, default)`. */
  function GetOr(d: map<string, Json>, k: string, default: Json): (v: Json)
    ensures k in d ==> v == d[k]
    ensures k !in d ==> v == default
  {
    if k in d then d[k] else default
  }

  /** Python's `int(x)` truncates a float toward zero. */
  function Trunc(r: real): (n: int)
    ensures 0.0 <= r ==> n as real <= r < n as real + 1.0
    ensures r < 0.0 ==> n as real - 1.0 < r <= n as real
  {
    if r >= 0.0 then r.Floor else -((-r).Floor)
  }

  /** `int(x)`: numbers convert, strings are parsed, anything else raises. */
  function IntOf(v: Json): (r: Result<int, Raised>)
    ensures v.JInt? ==> r == Ok(v.i)
    ensures v.JNone? || v.JList? || v.JObj? ==> r == Err(TypeError)
  {
    match v
    case JNone => Err(TypeError)
    case JBool(b) => Ok(if b then 1 else 0)
    case JInt(i) => Ok(i)
    case JReal(x) => Ok(Trunc(x))
    case JStr(s) =>
      (match Values.ParseInt(s)
       case Some(n) => Ok(n)
       case None => Err(ValueError))
    case JList(_) => Err(TypeError)
    case JObj(_, _) => Err(TypeError)
  }

  /** `list(x)`: a list is copied, a string splits into its characters, a
      dictionary yields its keys; anything else is not iterable. */
  function ListOf(v: Json): (r: Result<seq<Json>, Raised>)
    ensures v.JList? ==> r == Ok(v.items)
    ensures v.JStr? ==> r.Ok? && |r.value| == |v.s|
    ensures v.JObj? ==> r.Ok? && |r.value| == |v.order|
    ensures v.JNone? || v.JBool? || v.JInt? || v.JReal? ==> r == Err(TypeError)
  {
    match v
    case JList(items) => Ok(items)
    case JStr(s) => Ok(seq(|s|, k requires 0 <= k < |s| => JStr([s[k]])))
    case JObj(_, order) => Ok(seq(|order|, k requires 0 <= k < |order| => JStr(order[k])))
    case _ => Err(TypeError)
  }

  // ---------------------------------------------------------------------------
  // Steps

  datatype Step = Title | Year | Resolution | TvSeason | TvScope | TvEpisode | Confirmation | Complete

  /** The enum member's string value. */
  function StepName(st: Step): string {
    match st
    case Title => "title"
    case Year => "year"
    case Resolution => "resolution"
    case TvSeason => "tv_season"
    case TvScope => "tv_scope"
    case TvEpisode => "tv_episode"
    case Confirmation => "confirmation"
    case Complete => "complete"
  }

  /** `SearchStep(v)`, with the `ValueError` of an unknown value caught and
      read as the first step. */
  function StepOf(v: Json): (st: Step)
    ensures (v.JStr? && v.s == StepName(st)) || st == Title
  {
    if !v.JStr? then Title
    else if v.s == "year" then Year
    else if v.s == "resolution" then Resolution
    else if v.s == "tv_season" then TvSeason
    else if v.s == "tv_scope" then TvScope
    else if v.s == "tv_episode" then TvEpisode
    else if v.s == "confirmation" then Confirmation
    else if v.s == "complete" then Complete
    else Title
  }

  /** Every step is recovered from its stored value. */
  lemma StepRoundTrip(st: Step)
    ensures StepOf(JStr(StepName(st))) == st
  {
  }

  /** A value that names no step is read as the first step. */
  lemma UnknownStepIsTitle(v: Json)
    requires forall st: Step :: v != JStr(StepName(st))
    ensures StepOf(v) == Title
  {
  }

  // ---------------------------------------------------------------------------
  // The session record

  /** `SearchSession`. The loosely typed fields hold whatever the payload held. */
  datatype Session = Session(
    step: Step,
    mediaType: Json,
    title: Json,
    resolvedTitle: Json,
    finalTitle: Json,
    season: Json,
    episode: Json,
    resolution: Json,
    tvScope: Json,
    promptMessageId: Json,
    seasonEpisodeCount: Json,
    existingEpisodes: seq<Json>,
    missingEpisodeNumbers: Option<seq<Json>>,
    results: seq<Json>,
    resultsQuery: Json,
    resultsPage: int,
    resultsResolutionFilter: Json,
    resultsSort: Json,
    resultsMaxSizeGb: Json,
    resultsGeneratedAt: Json,
    allowDetailChange: bool)

  /** `SearchSession()`. */
  const Default := Session(Title, JNone, JNone, JNone, JNone, JNone, JNone, JNone, JNone, JNone, JNone,
                           [], None, [], JNone, 0, JStr("all"), JStr("score"), JNone, JNone, false)

  /** The keys of the stored dictionary, one per field of the record. */
  datatype Field =
    | StepKey | MediaTypeKey | TitleKey | ResolvedTitleKey | FinalTitleKey | SeasonKey | EpisodeKey
    | ResolutionKey | TvScopeKey | PromptMessageIdKey | SeasonEpisodeCountKey | ExistingEpisodesKey
    | MissingEpisodeNumbersKey | ResultsKey | ResultsQueryKey | ResultsPageKey
    | ResultsResolutionFilterKey | ResultsSortKey | ResultsMaxSizeGbKey | ResultsGeneratedAtKey
    | AllowDetailChangeKey

  /** The keys in the order `to_dict` writes them. */
  const Fields: seq<Field> := [
    StepKey, MediaTypeKey, TitleKey, ResolvedTitleKey, FinalTitleKey, SeasonKey, EpisodeKey,
    ResolutionKey, TvScopeKey, PromptMessageIdKey, SeasonEpisodeCountKey, ExistingEpisodesKey,
    MissingEpisodeNumbersKey, ResultsKey, ResultsQueryKey, ResultsPageKey,
    ResultsResolutionFilterKey, ResultsSortKey, ResultsMaxSizeGbKey, ResultsGeneratedAtKey,
    AllowDetailChangeKey]

  function FieldName(f: Field): string {
    match f
    case StepKey => "step"
    case MediaTypeKey => "media_type"
    case TitleKey => "title"
    case ResolvedTitleKey => "resolved_title"
    case FinalTitleKey => "final_title"
    case SeasonKey => "season"
    case EpisodeKey => "episode"
    case ResolutionKey => "resolution"
    case TvScopeKey => "tv_scope"
    case PromptMessageIdKey => "prompt_message_id"
    case SeasonEpisodeCountKey => "season_episode_count"
    case ExistingEpisodesKey => "existing_episodes"
    case MissingEpisodeNumbersKey => "missing_episode_numbers"
    case ResultsKey => "results"
    case ResultsQueryKey => "results_query"
    case ResultsPageKey => "results_page"
    case ResultsResolutionFilterKey => "results_resolution_filter"
    case ResultsSortKey => "results_sort"
    case ResultsMaxSizeGbKey => "results_max_size_gb"
    case ResultsGeneratedAtKey => "results_generated_at"
    case AllowDetailChangeKey => "allow_detail_change"
  }

  /** The field a stored key names, if any. */
  function FieldOf(name: string): (f: Option<Field>)
    ensures f.Some? ==> FieldName(f.value) == name
  {
    match |name|
    case 4 => if name == "step" then Some(StepKey) else None
    case 5 => if name == "title" then Some(TitleKey) else None
    case 6 => if name == "season" then Some(SeasonKey) else None
    case 7 =>
      if name == "episode" then Some(EpisodeKey)
      else if name == "results" then Some(ResultsKey) else None
    case 8 => if name == "tv_scope" then Some(TvScopeKey) else None
    case 10 =>
      if name == "media_type" then Some(MediaTypeKey)
      else if name == "resolution" then Some(ResolutionKey) else None
    case 11 => if name == "final_title" then Some(FinalTitleKey) else None
    case 12 =>
      if name == "results_page" then Some(ResultsPageKey)
      else if name == "results_sort" then Some(ResultsSortKey) else None
    case 13 => if name == "results_query" then Some(ResultsQueryKey) else None
    case 14 => if name == "resolved_title" then Some(ResolvedTitleKey) else None
    case 17 =>
      if name == "prompt_message_id" then Some(PromptMessageIdKey)
      else if name == "existing_episodes" then Some(ExistingEpisodesKey) else None
    case 19 =>
      if name == "results_max_size_gb" then Some(ResultsMaxSizeGbKey)
      else if name == "allow_detail_change" then Some(AllowDetailChangeKey) else None
    case 20 =>
      if name == "season_episode_count" then Some(SeasonEpisodeCountKey)
      else if name == "results_generated_at" then Some(ResultsGeneratedAtKey) else None
    case 23 => if name == "missing_episode_numbers" then Some(MissingEpisodeNumbersKey) else None
    case 25 => if name == "results_resolution_filter" then Some(ResultsResolutionFilterKey) else None
    case _ => None
  }

  /** Distinct fields have distinct keys, and every field is written. */
  lemma FieldNameRoundTrip(f: Field)
    ensures FieldOf(FieldName(f)) == Some(f)
    ensures f in Fields
  {
    FieldListed(f);
    if f.StepKey? || f.MediaTypeKey? || f.TitleKey? || f.ResolvedTitleKey? || f.FinalTitleKey? ||
       f.SeasonKey? || f.EpisodeKey? {
      SessionKeysReadBack(f);
    } else if f.ResolutionKey? || f.TvScopeKey? || f.PromptMessageIdKey? || f.SeasonEpisodeCountKey? ||
              f.ExistingEpisodesKey? || f.MissingEpisodeNumbersKey? || f.ResultsKey? {
      ResultKeysReadBack(f);
    } else {
      LaterKeysReadBack(f);
    }
  }

  /** The seven keys of the search prompt read back as their fields. */
  lemma SessionKeysReadBack(f: Field)
    requires f.StepKey? || f.MediaTypeKey? || f.TitleKey? || f.ResolvedTitleKey? || f.FinalTitleKey? ||
      f.SeasonKey? || f.EpisodeKey?
    ensures FieldOf(FieldName(f)) == Some(f)
  {
  }

  /** The next seven keys, from `resolution` to `results`. */
  lemma ResultKeysReadBack(f: Field)
    requires f.ResolutionKey? || f.TvScopeKey? || f.PromptMessageIdKey? || f.SeasonEpisodeCountKey? ||
      f.ExistingEpisodesKey? || f.MissingEpisodeNumbersKey? || f.ResultsKey?
    ensures FieldOf(FieldName(f)) == Some(f)
  {
  }

  /** The last seven keys, the results view and `allow_detail_change`. */
  lemma LaterKeysReadBack(f: Field)
    requires f.ResultsQueryKey? || f.ResultsPageKey? || f.ResultsResolutionFilterKey? || f.ResultsSortKey? ||
      f.ResultsMaxSizeGbKey? || f.ResultsGeneratedAtKey? || f.AllowDetailChangeKey?
    ensures FieldOf(FieldName(f)) == Some(f)
  {
  }

  lemma FieldListed(f: Field)
    ensures f in Fields
  {
  }

  /** `payload.get(key)`. */
  function Get(p: map<string, Json>, f: Field): (v: Json) {
    GetOr(p, FieldName(f), JNone)
  }

  /** The record `from_user_data` builds once the three conversions have
      succeeded. */
  function Assemble(p: map<string, Json>, existing: seq<Json>, results: seq<Json>, page: int): Session {
    var raw := Get(p, MissingEpisodeNumbersKey);
    Session(
      StepOf(GetOr(p, FieldName(StepKey), JStr("title"))),
      Get(p, MediaTypeKey),
      Get(p, TitleKey),
      Get(p, ResolvedTitleKey),
      Get(p, FinalTitleKey),
      Get(p, SeasonKey),
      Get(p, EpisodeKey),
      Get(p, ResolutionKey),
      Get(p, TvScopeKey),
      Get(p, PromptMessageIdKey),
      Get(p, SeasonEpisodeCountKey),
      existing,
      if raw.JList? then Some(raw.items) else None,
      results,
      Get(p, ResultsQueryKey),
      page,
      Or(Get(p, ResultsResolutionFilterKey), JStr("all")),
      Or(Get(p, ResultsSortKey), JStr("score")),
      Get(p, ResultsMaxSizeGbKey),
      Get(p, ResultsGeneratedAtKey),
      Truthy(Get(p, AllowDetailChangeKey)))
  }

  /** The session built from a payload dictionary; the three conversions may
      raise, in argument order. */
  function Load(p: map<string, Json>): (r: Result<Session, Raised>)
    ensures r.Ok? ==> Truthy(r.value.resultsResolutionFilter) && Truthy(r.value.resultsSort)
    ensures r.Ok? ==> (r.value.mediaType == Get(p, MediaTypeKey)
                       && r.value.title == Get(p, TitleKey)
                       && r.value.season == Get(p, SeasonKey)
                       && r.value.promptMessageId == Get(p, PromptMessageIdKey))
    ensures r.Ok? ==> r.value.allowDetailChange == Truthy(Get(p, AllowDetailChangeKey))
    ensures r.Ok? ==> (r.value.missingEpisodeNumbers.Some? <==> Get(p, MissingEpisodeNumbersKey).JList?)
    ensures r.Err? ==> r.error == TypeError || r.error == ValueError
  {
    var existing := ListOf(Or(Get(p, ExistingEpisodesKey), JList([])));
    var results := ListOf(Or(Get(p, ResultsKey), JList([])));
    var page := IntOf(Or(Get(p, ResultsPageKey), JInt(0)));
    if existing.Err? then Err(existing.error)
    else if results.Err? then Err(results.error)
    else if page.Err? then Err(page.error)
    else
      Ok(Assemble(p, existing.value, results.value, page.value))
  }

  /** `SearchSession.from_user_data`: `None` stands for user data that is not
      a mapping. Anything but a dictionary under the session key gives a
      fresh session. */
  function FromUserData(userData: Option<map<string, Json>>): (r: Result<Session, Raised>)
    ensures userData.None? ==> r == Ok(Default)
    ensures userData.Some? && (SessionKey !in userData.value || !userData.value[SessionKey].JObj?) ==> r == Ok(Default)
    ensures userData.Some? && SessionKey in userData.value && userData.value[SessionKey].JObj? ==>
              r == Load(userData.value[SessionKey].fields)
  {
    if userData.None? then Ok(Default)
    else
      var payload := GetOr(userData.value, SessionKey, JNone);
      if !payload.JObj? then Ok(Default)
      else Load(payload.fields)
  }

  /** What `to_dict` stores under a field's key. */
  function Stored(s: Session, f: Field): Json {
    match f
    case StepKey => JStr(StepName(s.step))
    case MediaTypeKey => s.mediaType
    case TitleKey => s.title
    case ResolvedTitleKey => s.resolvedTitle
    case FinalTitleKey => s.finalTitle
    case SeasonKey => s.season
    case EpisodeKey => s.episode
    case ResolutionKey => s.resolution
    case TvScopeKey => s.tvScope
    case PromptMessageIdKey => s.promptMessageId
    case SeasonEpisodeCountKey => s.seasonEpisodeCount
    case ExistingEpisodesKey => JList(s.existingEpisodes)
    case MissingEpisodeNumbersKey =>
      if s.missingEpisodeNumbers.Some? then JList(s.missingEpisodeNumbers.value) else JNone
    case ResultsKey => JList(s.results)
    case ResultsQueryKey => s.resultsQuery
    case ResultsPageKey => JInt(s.resultsPage)
    case ResultsResolutionFilterKey => s.resultsResolutionFilter
    case ResultsSortKey => s.resultsSort
    case ResultsMaxSizeGbKey => s.resultsMaxSizeGb
    case ResultsGeneratedAtKey => s.resultsGeneratedAt
    case AllowDetailChangeKey => JBool(s.allowDetailChange)
  }

  /** What `to_dict` stores under a key, looked up by its name. */
  function StoredAt(s: Session, name: string): Json {
    match FieldOf(name)
    case Some(f) => Stored(s, f)
    case None => JNone
  }

  /** `SearchSession.to_dict`: one key per field, in declaration order. */
  function ToDict(s: Session): (d: Json)
    ensures d.JObj? && |d.order| == |Fields|
    ensures forall i :: 0 <= i < |Fields| ==> d.order[i] == FieldName(Fields[i])
    ensures forall f: Field :: FieldName(f) in d.fields && d.fields[FieldName(f)] == Stored(s, f)
  {
    var names := set f | f in Fields :: FieldName(f);
    var d := map name | name in names :: StoredAt(s, name);
    forall f: Field
      ensures FieldName(f) in d && d[FieldName(f)] == Stored(s, f)
    {
      FieldNameRoundTrip(f);
      assert FieldName(f) in names;
    }
    JObj(d, seq(|Fields|, i requires 0 <= i < |Fields| => FieldName(Fields[i])))
  }

  /** `SearchSession.save`: the dictionary replaces whatever was under the
      session key; every other key is left alone. */
  function Save(s: Session, userData: map<string, Json>): (r: map<string, Json>)
    ensures SessionKey in r && r[SessionKey] == ToDict(s)
    ensures forall k :: k in userData && k != SessionKey ==> k in r && r[k] == userData[k]
    ensures r.Keys == userData.Keys + {SessionKey}
  {
    userData[SessionKey := ToDict(s)]
  }

  /** What a session looks like once loaded: a falsy filter or sort is
      replaced by its default. */
  function Normalized(s: Session): (r: Session)
    ensures Truthy(r.resultsResolutionFilter) && Truthy(r.resultsSort)
    ensures Truthy(s.resultsResolutionFilter) && Truthy(s.resultsSort) ==> r == s
  {
    s.(resultsResolutionFilter := Or(s.resultsResolutionFilter, JStr("all")),
       resultsSort := Or(s.resultsSort, JStr("score")))
  }

  /** Saving and loading reproduces every field, except that a falsy filter
      or sort comes back as "all" or "score". */
  lemma SaveLoadRoundTrip(s: Session, userData: map<string, Json>)
    ensures FromUserData(Some(Save(s, userData))) == Ok(Normalized(s))
  {
    var ud := Save(s, userData);
    assert FromUserData(Some(ud)) == Load(ToDict(s).fields);
    LoadToDict(s);
  }

  /** Reading a field back from the saved dictionary. */
  lemma StoredLookup(s: Session, f: Field)
    ensures Get(ToDict(s).fields, f) == Stored(s, f)
  {
  }

  /** The loading half of the round trip, on the saved dictionary itself. */
  lemma LoadToDict(s: Session)
    ensures Load(ToDict(s).fields) == Ok(Normalized(s))
  {
    var p := ToDict(s).fields;
    forall f: Field
      ensures Get(p, f) == Stored(s, f)
    {
      StoredLookup(s, f);
    }
    HoldsTitlesFrom(p, s);
    HoldsTvFrom(p, s);
    HoldsListsFrom(p, s);
    HoldsFlagsFrom(p, s);
    LoadStored(p, s);
  }

  /** A payload holds, key by key, what `to_dict` stores for `s`. */
  predicate Holds(p: map<string, Json>, s: Session) {
    HoldsTitles(p, s) && HoldsTv(p, s) && HoldsLists(p, s) && HoldsFlags(p, s)
  }

  /** The four parts of `Holds`, kept apart so that each is checked on its own. */
  predicate HoldsTitles(p: map<string, Json>, s: Session) {
    Get(p, StepKey) == JStr(StepName(s.step))
    && Get(p, MediaTypeKey) == s.mediaType
    && Get(p, TitleKey) == s.title
    && Get(p, ResolvedTitleKey) == s.resolvedTitle
    && Get(p, FinalTitleKey) == s.finalTitle
  }

  lemma HoldsTitlesFrom(p: map<string, Json>, s: Session)
    requires forall f: Field :: Get(p, f) == Stored(s, f)
    ensures HoldsTitles(p, s)
  {
  }

  predicate HoldsTv(p: map<string, Json>, s: Session) {
    Get(p, SeasonKey) == s.season
    && Get(p, EpisodeKey) == s.episode
    && Get(p, ResolutionKey) == s.resolution
    && Get(p, TvScopeKey) == s.tvScope
    && Get(p, PromptMessageIdKey) == s.promptMessageId
    && Get(p, SeasonEpisodeCountKey) == s.seasonEpisodeCount
  }

  lemma HoldsTvFrom(p: map<string, Json>, s: Session)
    requires forall f: Field :: Get(p, f) == Stored(s, f)
    ensures HoldsTv(p, s)
  {
  }

  predicate HoldsLists(p: map<string, Json>, s: Session) {
    Get(p, ExistingEpisodesKey) == JList(s.existingEpisodes)
    && Get(p, MissingEpisodeNumbersKey) == (if s.missingEpisodeNumbers.Some? then JList(s.missingEpisodeNumbers.value) else JNone)
    && Get(p, ResultsKey) == JList(s.results)
    && Get(p, ResultsQueryKey) == s.resultsQuery
    && Get(p, ResultsPageKey) == JInt(s.resultsPage)
  }

  lemma HoldsListsFrom(p: map<string, Json>, s: Session)
    requires forall f: Field :: Get(p, f) == Stored(s, f)
    ensures HoldsLists(p, s)
  {
    EpisodeListsFrom(p, s);
    ResultListsFrom(p, s);
  }

  /** The parts of `HoldsLists` and `HoldsFlags`, a few keys at a time. */
  lemma EpisodeListsFrom(p: map<string, Json>, s: Session)
    requires forall f: Field :: Get(p, f) == Stored(s, f)
    ensures Get(p, ExistingEpisodesKey) == JList(s.existingEpisodes)
    ensures Get(p, MissingEpisodeNumbersKey) == (if s.missingEpisodeNumbers.Some? then JList(s.missingEpisodeNumbers.value) else JNone)
  {
  }

  lemma ResultListsFrom(p: map<string, Json>, s: Session)
    requires forall f: Field :: Get(p, f) == Stored(s, f)
    ensures Get(p, ResultsKey) == JList(s.results)
    ensures Get(p, ResultsQueryKey) == s.resultsQuery
    ensures Get(p, ResultsPageKey) == JInt(s.resultsPage)
  {
  }

  predicate HoldsFlags(p: map<string, Json>, s: Session) {
    Get(p, ResultsResolutionFilterKey) == s.resultsResolutionFilter
    && Get(p, ResultsSortKey) == s.resultsSort
    && Get(p, ResultsMaxSizeGbKey) == s.resultsMaxSizeGb
    && Get(p, ResultsGeneratedAtKey) == s.resultsGeneratedAt
    && Get(p, AllowDetailChangeKey) == JBool(s.allowDetailChange)
  }

  lemma HoldsFlagsFrom(p: map<string, Json>, s: Session)
    requires forall f: Field :: Get(p, f) == Stored(s, f)
    ensures HoldsFlags(p, s)
  {
    ViewFlagsFrom(p, s);
    StampFlagsFrom(p, s);
  }

  lemma ViewFlagsFrom(p: map<string, Json>, s: Session)
    requires forall f: Field :: Get(p, f) == Stored(s, f)
    ensures Get(p, ResultsResolutionFilterKey) == s.resultsResolutionFilter
    ensures Get(p, ResultsSortKey) == s.resultsSort
    ensures Get(p, ResultsMaxSizeGbKey) == s.resultsMaxSizeGb
  {
  }

  lemma StampFlagsFrom(p: map<string, Json>, s: Session)
    requires forall f: Field :: Get(p, f) == Stored(s, f)
    ensures Get(p, ResultsGeneratedAtKey) == s.resultsGeneratedAt
    ensures Get(p, AllowDetailChangeKey) == JBool(s.allowDetailChange)
  {
  }

  /** Loading any payload that holds what `to_dict` stores for `s`. */
  lemma LoadStored(p: map<string, Json>, s: Session)
    requires Holds(p, s)
    ensures Load(p) == Ok(Normalized(s))
  {
    assert ListOf(Or(Get(p, ExistingEpisodesKey), JList([]))) == Ok(s.existingEpisodes);
    assert ListOf(Or(Get(p, ResultsKey), JList([]))) == Ok(s.results);
    assert IntOf(Or(Get(p, ResultsPageKey), JInt(0))) == Ok(s.resultsPage);
    assert Load(p) == Ok(Assemble(p, s.existingEpisodes, s.results, s.resultsPage));
    StepRoundTrip(s.step);
  }

  /** A loaded session already has its defaults filled in, so saving it and
      loading again gives it back unchanged. */
  lemma LoadSaveLoad(userData: Option<map<string, Json>>, other: map<string, Json>)
    requires FromUserData(userData).Ok?
    ensures FromUserData(Some(Save(FromUserData(userData).value, other))) == FromUserData(userData)
  {
    SaveLoadRoundTrip(FromUserData(userData).value, other);
  }

  /** A payload that stores a non-iterable truthy value in place of a list
      makes loading raise. */
  lemma NonListEpisodesRaise(p: map<string, Json>)
    requires "existing_episodes" in p && p["existing_episodes"].JInt? && p["existing_episodes"].i != 0
    ensures Load(p) == Err(TypeError)
  {
    var v := Get(p, ExistingEpisodesKey);
    assert FieldName(ExistingEpisodesKey) == "existing_episodes";
    assert v == p["existing_episodes"];
    assert ListOf(Or(v, JList([]))) == Err(TypeError);
  }

  // ---------------------------------------------------------------------------
  // Accessors

  /** `is_active`. */
  predicate IsActive(s: Session) {
    s.mediaType != JNone
  }

  /** A fresh session is inactive; a loaded one is active exactly when the
      payload stored a media type. */
  lemma ActiveAfterLoad(p: map<string, Json>)
    requires Load(p).Ok?
    ensures !IsActive(Default)
    ensures IsActive(Load(p).value) <==> "media_type" in p && p["media_type"] != JNone
  {
  }

  /** `effective_title`: the resolved title when it is truthy, else the title. */
  function EffectiveTitle(s: Session): (t: Json)
    ensures Truthy(s.resolvedTitle) ==> t == s.resolvedTitle
    ensures !Truthy(s.resolvedTitle) ==> t == s.title
  {
    Or(s.resolvedTitle, s.title)
  }

  /** `set_title`. */
  function SetTitle(s: Session, title: string, resolvedTitle: Json): (r: Session)
    ensures r.title == JStr(title)
    ensures r.resolvedTitle == if Truthy(resolvedTitle) then resolvedTitle else s.resolvedTitle
    ensures r.(title := s.title, resolvedTitle := s.resolvedTitle) == s
  {
    if Truthy(resolvedTitle) then s.(title := JStr(title), resolvedTitle := resolvedTitle)
    else s.(title := JStr(title))
  }

  /** `set_title` never clears a resolved title: once set it stays the
      effective title until another truthy one replaces it. */
  lemma SetTitleKeepsResolved(s: Session, title: string, resolvedTitle: Json)
    requires Truthy(s.resolvedTitle)
    ensures Truthy(SetTitle(s, title, resolvedTitle).resolvedTitle)
    ensures !Truthy(resolvedTitle) ==> EffectiveTitle(SetTitle(s, title, resolvedTitle)) == s.resolvedTitle
  {
  }

  /** The shared test of the `require_*` accessors: a falsy field raises the
      session error with the default message. */
  function Require(v: Json): (r: Result<Json, Raised>)
    ensures r.Err? <==> !Truthy(v)
    ensures r.Err? ==> r.error == SessionError(ContextLostMessage)
    ensures r.Ok? ==> r.value == v
  {
    if !Truthy(v) then Err(SessionError(ContextLostMessage)) else Ok(v)
  }

  /** `require_title`: fails only when neither title is truthy, and otherwise
      returns the resolved title in preference to the typed one. */
  function RequireTitle(s: Session): (r: Result<Json, Raised>)
    ensures r.Err? <==> !Truthy(s.resolvedTitle) && !Truthy(s.title)
    ensures r.Ok? ==> Truthy(r.value)
    ensures r.Ok? && Truthy(s.resolvedTitle) ==> r.value == s.resolvedTitle
    ensures r.Ok? && !Truthy(s.resolvedTitle) ==> r.value == s.title
  {
    Require(EffectiveTitle(s))
  }

  /** After `set_title` with a non-empty title, `require_title` succeeds. */
  lemma RequireTitleAfterSet(s: Session, title: string, resolvedTitle: Json)
    requires title != ""
    ensures RequireTitle(SetTitle(s, title, resolvedTitle)).Ok?
  {
  }

  function RequireFinalTitle(s: Session): (r: Result<Json, Raised>)
    ensures r.Err? <==> !Truthy(s.finalTitle)
    ensures r.Ok? ==> r.value == s.finalTitle
  {
    Require(s.finalTitle)
  }

  function RequireMediaType(s: Session): (r: Result<Json, Raised>)
    ensures r.Err? <==> !Truthy(s.mediaType)
    ensures r.Ok? ==> r.value == s.mediaType
  {
    Require(s.mediaType)
  }

  function RequireTvScope(s: Session): (r: Result<Json, Raised>)
    ensures r.Err? <==> !Truthy(s.tvScope)
    ensures r.Ok? ==> r.value == s.tvScope
  {
    Require(s.tvScope)
  }

  function RequireResolution(s: Session): (r: Result<Json, Raised>)
    ensures r.Err? <==> !Truthy(s.resolution)
    ensures r.Ok? ==> r.value == s.resolution
  {
    Require(s.resolution)
  }

  /** `require_season`: only a missing season raises the session error (season
      0 is accepted); the stored value is then converted with `int`. */
  function RequireSeason(s: Session): (r: Result<int, Raised>)
    ensures s.season == JNone <==> r == Err(SessionError(ContextLostMessage))
    ensures s.season.JInt? ==> r == Ok(s.season.i)
  {
    if s.season == JNone then Err(SessionError(ContextLostMessage)) else IntOf(s.season)
  }

  /** `consume_prompt_message_id`: the stored id, and the session without it. */
  function ConsumePromptMessageId(s: Session): (r: (Json, Session))
    ensures r.0 == s.promptMessageId
    ensures r.1.promptMessageId == JNone
    ensures r.1.(promptMessageId := s.promptMessageId) == s
  {
    (s.promptMessageId, s.(promptMessageId := JNone))
  }

  /** A prompt id is handed out once: consuming again yields nothing and
      leaves the session as it was. */
  lemma ConsumeOnce(s: Session)
    ensures var (_, t) := ConsumePromptMessageId(s);
            ConsumePromptMessageId(t) == (JNone, t)
  {
  }

  /** `clear_search_session`: `None` stands for user data that is not a
      mapping, which is left alone. */
  function ClearSearchSession(userData: Option<map<string, Json>>): (r: Option<map<string, Json>>)
    ensures userData.None? ==> r.None?
    ensures userData.Some? ==> r.Some? && SessionKey !in r.value
    ensures userData.Some? ==> forall k :: k in userData.value && k != SessionKey ==> k in r.value && r.value[k] == userData.value[k]
    ensures userData.Some? ==> r.value.Keys == userData.value.Keys - {SessionKey}
  {
    if userData.None? then None else Some(userData.value - {SessionKey})
  }

  /** After clearing, loading gives a fresh session. */
  lemma ClearThenLoad(userData: Option<map<string, Json>>)
    ensures FromUserData(ClearSearchSession(userData)) == Ok(Default)
  {
  }
}
