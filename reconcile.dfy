/**
 * One iteration of the polling loop in `main` (main.py:163-234): normalise
 * the player status into a snapshot, compare it with what was remembered,
 * and when it changed build either a "now playing" or the fixed idle
 * presence update, resolving the artwork on the way.
 */
module Reconcile {
  import opened Wrappers
  import opened SongInfo
  import opened TitleStrip
  import opened ArtCache

  /**
   * `urllib.parse.unquote` and "the path of a file URL"
   * (`urlparse(u).path`): library functions taken as given.
   */
  datatype UrlCodec = UrlCodec(unquote: string -> string, fileUrlPath: string -> string)

  /** The settings read from the environment (main.py:18-22). */
  datatype Config = Config(
    defaultImage: string,
    stoppedIcon: string,
    playingIcon: string,
    pausedIcon: string,
    stripWords: seq<string>,
    codec: UrlCodec)

  /** `os.getenv(name, default)`. */
  function GetEnv(env: map<string, string>, name: string, default: string): (v: string)
    ensures name !in env ==> v == default
    ensures name in env ==> v == env[name]
  {
    if name in env then env[name] else default
  }

  /** STRIP_WORDS (main.py:22): well-formed words, none when the variable is unset. */
  function StripWordsFromEnv(env: map<string, string>): (words: seq<string>)
    ensures "STRIP_WORDS" !in env ==> words == []
    ensures "STRIP_WORDS" in env ==> words == ParseStripWords(env["STRIP_WORDS"])
    ensures forall k :: 0 <= k < |words| ==> WellFormedWord(words[k])
  {
    // unset reads as "", which parses to no words (NoStripWordsByDefault)
    if "STRIP_WORDS" in env then ParseStripWords(env["STRIP_WORDS"]) else []
  }

  /** The configuration block of main.py:18-22, with its defaults. */
  function ConfigFromEnv(env: map<string, string>, codec: UrlCodec): (cfg: Config)
    ensures "DEFAULT_LARGE_IMAGE_URL" !in env ==> cfg.defaultImage == "vlc"
    ensures "STOPPED_ICON" !in env ==> cfg.stoppedIcon == "stopped"
    ensures "PLAYING_ICON" !in env ==> cfg.playingIcon == "playing"
    ensures "PAUSED_ICON" !in env ==> cfg.pausedIcon == "paused"
    ensures "DEFAULT_LARGE_IMAGE_URL" in env ==> cfg.defaultImage == env["DEFAULT_LARGE_IMAGE_URL"]
    ensures "STOPPED_ICON" in env ==> cfg.stoppedIcon == env["STOPPED_ICON"]
    ensures "PLAYING_ICON" in env ==> cfg.playingIcon == env["PLAYING_ICON"]
    ensures "PAUSED_ICON" in env ==> cfg.pausedIcon == env["PAUSED_ICON"]
    ensures cfg.stripWords == StripWordsFromEnv(env) && cfg.codec == codec
  {
    Config(
      GetEnv(env, "DEFAULT_LARGE_IMAGE_URL", "vlc"),
      GetEnv(env, "STOPPED_ICON", "stopped"),
      GetEnv(env, "PLAYING_ICON", "playing"),
      GetEnv(env, "PAUSED_ICON", "paused"),
      StripWordsFromEnv(env),
      codec)
  }

  // ------------------------------------------------------------ normalising

  predicate StartsWith(s: string, prefix: string)
  {
    |prefix| <= |s| && s[..|prefix|] == prefix
  }

  /**
   * A Windows path inside a file URL comes out as "/C:/…": the leading
   * slash is dropped when the path contains a colon (main.py:171-172).
   */
  function DropDriveSlash(path: string): (r: string)
    ensures r != path <==> StartsWith(path, "/") && ':' in path
    ensures r != path ==> path == "/" + r
  {
    if StartsWith(path, "/") && ':' in path then
      assert path == [path[0]] + path[1..];
      path[1..]
    else path
  }

  /** The art path clean-up of main.py:168-175. */
  function CleanArtPath(artPath: string, codec: UrlCodec): (r: string)
    ensures StartsWith(artPath, "file://") ==>
      r == DropDriveSlash(codec.unquote(codec.fileUrlPath(artPath)))
    ensures StartsWith(artPath, "file://") ==>
      var decoded := codec.unquote(codec.fileUrlPath(artPath));
      (r != decoded <==> StartsWith(decoded, "/") && ':' in decoded) && (r != decoded ==> decoded == "/" + r)
    ensures !StartsWith(artPath, "file://") && artPath != "" ==> r == codec.unquote(artPath)
    ensures artPath == "" ==> r == ""
  {
    if StartsWith(artPath, "file://") then DropDriveSlash(codec.unquote(codec.fileUrlPath(artPath)))
    else if artPath != "" then codec.unquote(artPath)
    else artPath
  }

  /** A non-empty album is percent-decoded; an empty one is kept (main.py:167). */
  function CleanAlbum(album: string, codec: UrlCodec): (r: string)
    ensures album == "" ==> r == ""
    ensures album != "" ==> r == codec.unquote(album)
  {
    if album != "" then codec.unquote(album) else album
  }

  /** Start and end of playback on the wall clock, and the duration they were computed from. */
  datatype Timing = Timing(start: Option<int>, end: Option<int>, duration: int)

  /**
   * main.py:177-184: only while playing, `start = now - time` and
   * `end = start + length`, with a missing `time` or `length` read as 0.
   */
  function TimingOf(status: Option<Status>, now: int): (t: Timing)
    ensures t.start.Some? <==> status.Some? && status.value.state == Some("playing")
    ensures t.end.Some? <==> t.start.Some?
    ensures t.start.Some? ==>
      && now - t.start.value == (if status.value.time.Some? then status.value.time.value else 0)
      && t.end.value - t.start.value == t.duration
      && t.duration == (if status.value.length.Some? then status.value.length.value else 0)
  {
    if status.Some? && status.value.state == Some("playing") then
      var position := if status.value.time.Some? then status.value.time.value else 0;
      var duration := if status.value.length.Some? then status.value.length.value else 0;
      var start := now - position;
      Timing(Some(start), Some(start + duration), duration)
    else Timing(None, None, 0)
  }

  /** What one poll of the player amounts to, after decoding. */
  datatype Snapshot = Snapshot(song: Option<Song>, state: Option<string>, timing: Timing)

  /** main.py:164-184: song fields, decoded album and art path, state and timing. */
  function Normalize(status: Option<Status>, now: int, codec: UrlCodec): (snap: Snapshot)
    ensures snap.song.None? <==> GetSongInfo(status).None?
    ensures snap.song.Some? ==>
      var raw := GetSongInfo(status).value;
      && snap.song.value.title == raw.title
      && snap.song.value.artist == raw.artist
      && snap.song.value.album == CleanAlbum(raw.album, codec)
      && snap.song.value.artPath == CleanArtPath(raw.artPath, codec)
    ensures snap.state == (if status.Some? then status.value.state else None)
    ensures snap.timing == TimingOf(status, now)
  {
    var song := match GetSongInfo(status)
      case None => None
      case Some(s) => Some(Song(s.title, s.artist, CleanAlbum(s.album, codec), CleanArtPath(s.artPath, codec)));
    Snapshot(song, if status.Some? then status.value.state else None, TimingOf(status, now))
  }

  // ------------------------------------------------------- change detection

  /** `last_title`, `last_artist`, `last_album`, `last_art_path`, `last_start`, `last_end`. */
  datatype Memory = Memory(
    title: Option<string>,
    artist: Option<string>,
    album: Option<string>,
    artPath: Option<string>,
    start: Option<int>,
    end: Option<int>)

  /** The memory before the first poll: every field None (main.py:160-161). */
  const Forgotten := Memory(None, None, None, None, None, None)

  /** The six values main.py:234 stores. */
  function Remember(snap: Snapshot): Memory
  {
    match snap.song
    case None => Memory(None, None, None, None, snap.timing.start, snap.timing.end)
    case Some(s) => Memory(Some(s.title), Some(s.artist), Some(s.album), Some(s.artPath),
                           snap.timing.start, snap.timing.end)
  }

  /** Python truthiness of the state string: present and non-empty. */
  predicate StateTruthy(state: Option<string>)
  {
    state.Some? && state.value != ""
  }

  /** The condition of main.py:185, compared field by field. */
  predicate Changed(last: Memory, snap: Snapshot)
  {
    var now := Remember(snap);
    || now.title != last.title || now.artist != last.artist || now.album != last.album
    || now.artPath != last.artPath || now.start != last.start || now.end != last.end
    || StateTruthy(snap.state)
  }

  /**
   * After an update, polling the same snapshot again triggers another
   * update only through a non-empty state string (the keep-alive of a
   * steadily playing track).
   */
  lemma SteadyState(snap: Snapshot)
    ensures Changed(Remember(snap), snap) <==> StateTruthy(snap.state)
  {
  }

  /** With the player unreachable from the start, nothing is ever sent. */
  lemma QuietWithoutPlayer(now: int, codec: UrlCodec)
    ensures !Changed(Forgotten, Normalize(None, now, codec))
  {
  }

  // --------------------------------------------------------- update records

  /** A value in the presence update: text or a Unix time. */
  datatype Arg = Str(s: string) | Epoch(t: int)

  /** The keyword arguments handed to `rpc.update`. */
  type UpdateArgs = map<string, Arg>

  const LargeText := "VLC Media Player"

  /** `details` (main.py:187-192): the stripped title, when that is non-empty. */
  function Details(snap: Snapshot, words: seq<string>): (d: Option<string>)
    ensures d.Some? <==> snap.song.Some? && StripAll(snap.song.value.title, words) != ""
    ensures d.Some? ==> d.value == StripAll(snap.song.value.title, words)
    ensures d.Some? ==> |d.value| <= |snap.song.value.title|
    ensures snap.song.Some? && snap.song.value.title != "" && words == [] ==> d == Some(snap.song.value.title)
  {
    if snap.song.Some? && snap.song.value.title != "" then
      var t := StripAll(snap.song.value.title, words);
      if t != "" then Some(t) else None
    else None
  }

  /** The fixed idle update of main.py:222-228. */
  function IdleArgs(cfg: Config): UpdateArgs
  {
    map["details" := Str("Idling"), "state" := Str("Nothing is playing"),
        "large_image" := Str(cfg.defaultImage), "large_text" := Str(LargeText),
        "small_image" := Str(cfg.stoppedIcon)]
  }

  /** Playing with a truthy start and end and a positive duration (main.py:202). */
  predicate Timed(state: Option<string>, t: Timing)
  {
    state == Some("playing") && t.start.Some? && t.start.value != 0
    && t.end.Some? && t.end.value != 0 && t.duration > 0
  }

  /** The key set of a "now playing" update. */
  function NowPlayingKeys(artist: string, state: Option<string>, t: Timing,
                          largeImage: string, cfg: Config): set<string>
  {
    var paused := state == Some("paused");
    {"details", "large_image", "large_text"}
    + (if artist != "" then {"state"} else {})
    + (if Timed(state, t) then {"start", "end"} else {})
    + (if paused || largeImage == cfg.defaultImage then {"small_image"} else {})
    + (if paused then {"small_text"} else {})
  }

  /**
   * What a "now playing" update holds (main.py:198-214): the details, the
   * artwork and the fixed large text; the artist when there is one; start
   * and end only when timed; "Paused" with the paused icon when paused;
   * otherwise the playing icon exactly when the artwork is the default.
   */
  ghost predicate IsNowPlaying(args: UpdateArgs, details: string, artist: string,
                               state: Option<string>, t: Timing, largeImage: string, cfg: Config)
  {
    var paused := state == Some("paused");
    && args.Keys == NowPlayingKeys(artist, state, t, largeImage, cfg)
    && args["details"] == Str(details)
    && args["large_image"] == Str(largeImage)
    && args["large_text"] == Str(LargeText)
    && (artist != "" ==> args["state"] == Str(artist))
    && (Timed(state, t) ==> args["start"] == Epoch(t.start.value) && args["end"] == Epoch(t.end.value))
    && ("small_image" in args ==> args["small_image"] == Str(if paused then cfg.pausedIcon else cfg.playingIcon))
    && (paused ==> args["small_text"] == Str("Paused"))
  }

  /** The description above leaves no freedom: it fixes every key and value. */
  lemma NowPlayingDetermined(a1: UpdateArgs, a2: UpdateArgs, details: string, artist: string,
                             state: Option<string>, t: Timing, largeImage: string, cfg: Config)
    requires IsNowPlaying(a1, details, artist, state, t, largeImage, cfg)
    requires IsNowPlaying(a2, details, artist, state, t, largeImage, cfg)
    ensures a1 == a2
  {
    forall k | k in a1.Keys
      ensures a1[k] == a2[k]
    {
    }
  }

  /** The update built by key assignment and `pop` in main.py:198-214. */
  method BuildNowPlaying(details: string, artist: string, state: Option<string>, t: Timing,
                         largeImage: string, cfg: Config) returns (args: UpdateArgs)
    ensures IsNowPlaying(args, details, artist, state, t, largeImage, cfg)
    ensures "large_text" in args && args["large_text"] == Str(LargeText)
    ensures state == Some("paused") ==> "start" !in args && "end" !in args
  {
    args := map["details" := Str(details), "large_image" := Str(largeImage), "large_text" := Str(LargeText)];
    if artist != "" {
      args := args["state" := Str(artist)];
    }
    if Timed(state, t) {
      args := args["start" := Epoch(t.start.value)];
      args := args["end" := Epoch(t.end.value)];
      if largeImage == cfg.defaultImage {
        args := args["small_image" := Str(cfg.playingIcon)];
      }
    } else if state == Some("paused") {
      args := args["small_image" := Str(cfg.pausedIcon)];
      args := args["small_text" := Str("Paused")];
      args := args - {"start"};
      args := args - {"end"};
    } else {
      if largeImage == cfg.defaultImage {
        args := args["small_image" := Str(cfg.playingIcon)];
      }
    }
  }

  // ------------------------------------------------------------ the loop

  class ReconciliationLoop {
    const cfg: Config
    const art: ArtResolver
    var last: Memory

    ghost predicate Valid()
    {
      art.defaultImage == cfg.defaultImage
    }

    /** The state on entry to the polling loop: nothing remembered, guard clear. */
    constructor (cfg: Config, cacheFile: CacheFile)
      ensures Valid() && this.cfg == cfg && last == Forgotten
      ensures fresh(art) && art.file == cacheFile && !art.uploading && art.uploads == []
    {
      this.cfg := cfg;
      art := new ArtResolver(cfg.defaultImage, cacheFile);
      last := Forgotten;
    }

    /**
     * One pass of the `while True` loop: `status` is what `get_vlc_status`
     * returned, `now` is `int(time.time())`, and the last three parameters
     * answer the artwork resolver's outside questions. The result is the
     * record handed to `rpc.update`, if any.
     */
    method Poll(status: Option<Status>, now: int, live: string -> bool,
                fileExists: string -> bool, outcome: UploadOutcome) returns (sent: Option<UpdateArgs>)
      requires Valid()
      modifies this, art
      ensures Valid()
      ensures var snap := Normalize(status, now, cfg.codec);
        && (sent.Some? <==> Changed(old(last), snap))
        && last == (if sent.Some? then Remember(snap) else old(last))
      // nothing to show: the idle record, and the resolver is not consulted
      ensures var snap := Normalize(status, now, cfg.codec);
        sent.Some? && Details(snap, cfg.stripWords).None? ==> sent.value == IdleArgs(cfg)
      ensures var snap := Normalize(status, now, cfg.codec);
        sent.None? || Details(snap, cfg.stripWords).None? ==>
          art.file == old(art.file) && art.uploads == old(art.uploads)
      // something to show: a "now playing" record around the resolved artwork
      ensures var snap := Normalize(status, now, cfg.codec);
        sent.Some? && Details(snap, cfg.stripWords).Some? ==>
          var s := snap.song.value;
          var r := Resolve(s.album, s.artPath, old(art.file), old(art.uploading),
                           live, fileExists, outcome, cfg.defaultImage);
          && IsNowPlaying(sent.value, Details(snap, cfg.stripWords).value, s.artist,
                          snap.state, snap.timing, r.url, cfg)
          && art.file == r.file
          && art.uploads == old(art.uploads) + (if r.uploaded then [s.artPath] else [])
      ensures art.uploading == old(art.uploading)
    {
      var snap := Normalize(status, now, cfg.codec);
      if !Changed(last, snap) {
        return None;
      }
      var details: Option<string> := None;
      if snap.song.Some? && snap.song.value.title != "" {
        var stripped := StripTitle(snap.song.value.title, cfg.stripWords);
        if stripped != "" {
          details := Some(stripped);
        }
      }
      if details.Some? {
        var s := snap.song.value;
        var largeImage := art.GetAlbumArtUrl(s.album, s.artPath, live, fileExists, outcome);
        var args := BuildNowPlaying(details.value, s.artist, snap.state, snap.timing, largeImage, cfg);
        sent := Some(args);
      } else {
        sent := Some(IdleArgs(cfg));
      }
      last := Remember(snap);
    }
  }
}
