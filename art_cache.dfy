/**
 * The artwork resolver `get_album_art_url` (main.py:65-99) with the cache
 * file behind it (`load_art_cache` / `save_art_cache`, main.py:44-55) and the
 * process-wide upload guard `currently_uploading` (main.py:28).
 *
 * The three outside answers the resolver depends on are inputs: whether a
 * cached URL is still reachable (`is_url_valid`), whether the art file exists
 * (`os.path.exists`) and how the single upload ends (`upload_to_uguu`).
 */
module ArtCache {
  import opened Wrappers

  /** How `upload_to_uguu` ends: with the hosted file's URL, or with an exception. */
  datatype UploadOutcome = Uploaded(url: string) | UploadFailed

  /** The contents of art.json: None when the file is missing or not valid JSON. */
  type CacheFile = Option<map<string, string>>

  /** `load_art_cache`: a missing or corrupt file reads as the empty cache. */
  function Load(file: CacheFile): (cache: map<string, string>)
    ensures file.None? ==> cache == map[]
    ensures file.Some? ==> cache == file.value
  {
    if file.Some? then file.value else map[]
  }

  /** What one call of the resolver returns and leaves behind. */
  datatype Resolution = Resolution(url: string, file: CacheFile, uploaded: bool)

  /** The cached URL for `album` is there and still reachable. */
  predicate LiveHit(album: string, file: CacheFile, live: string -> bool)
  {
    album in Load(file) && live(Load(file)[album])
  }

  /**
   * The outcome of `get_album_art_url(album, art_path)` given the cache file,
   * the guard, URL liveness, file existence and the upload's outcome.
   */
  function Resolve(album: string, artPath: string, file: CacheFile, uploading: bool,
                   live: string -> bool, fileExists: string -> bool, outcome: UploadOutcome,
                   defaultImage: string): (r: Resolution)
    // no album or no art: the default, nothing touched
    ensures album == "" || artPath == "" ==> r == Resolution(defaultImage, file, false)
    // a live cached URL is returned as it is
    ensures album != "" && artPath != "" && LiveHit(album, file, live) ==>
      r == Resolution(Load(file)[album], file, false)
    // a dead entry is evicted and written back; only a new upload can refill it
    ensures album != "" && artPath != "" && album in Load(file) && !LiveHit(album, file, live) ==>
      && r.file.Some?
      && (if r.uploaded && outcome.Uploaded?
          then r.file.value == Load(file)[album := outcome.url]
          else r.file.value == Load(file) - {album})
    // an upload is attempted exactly when the guard is free and the art file exists
    ensures r.uploaded <==>
      album != "" && artPath != "" && !LiveHit(album, file, live) && !uploading && fileExists(artPath)
    // while the guard is held, a miss gets the default and no upload
    ensures uploading && !LiveHit(album, file, live) ==> r.url == defaultImage && !r.uploaded
    // a successful upload is cached under the album and returned
    ensures r.uploaded && outcome.Uploaded? ==>
      r.url == outcome.url && r.file == Some(Load(file)[album := outcome.url])
    // without a successful upload, a miss gives the default and leaves the album uncached
    ensures !LiveHit(album, file, live) && !(r.uploaded && outcome.Uploaded?) ==>
      r.url == defaultImage && (album != "" && artPath != "" ==> album !in Load(r.file))
    // other albums' entries are never touched
    ensures Load(r.file) - {album} == Load(file) - {album}
  {
    if album == "" || artPath == "" then Resolution(defaultImage, file, false)
    else
      var cache := Load(file);
      if album in cache && live(cache[album]) then Resolution(cache[album], file, false)
      else
        var file' := if album in cache then Some(cache - {album}) else file;
        if uploading || !fileExists(artPath) then Resolution(defaultImage, file', false)
        else
          match outcome
          case Uploaded(url) => Resolution(url, Some(Load(file') [album := url]), true)
          case UploadFailed => Resolution(defaultImage, file', true)
  }

  class ArtResolver {
    /** DEFAULT_LARGE_IMAGE_URL. */
    const defaultImage: string
    /** art.json on disk. */
    var file: CacheFile
    /** `currently_uploading`. */
    var uploading: bool
    /** The art paths handed to the uploader so far, oldest first. */
    ghost var uploads: seq<string>

    constructor (defaultImage: string, file: CacheFile)
      ensures this.defaultImage == defaultImage && this.file == file
      ensures !uploading && uploads == []
    {
      this.defaultImage := defaultImage;
      this.file := file;
      uploading := false;
      uploads := [];
    }

    /** `get_album_art_url(album, art_path)`. */
    method GetAlbumArtUrl(album: string, artPath: string, live: string -> bool,
                          fileExists: string -> bool, outcome: UploadOutcome) returns (url: string)
      modifies this
      ensures var r := Resolve(album, artPath, old(file), old(uploading), live, fileExists, outcome, defaultImage);
        && url == r.url && file == r.file
        && uploads == old(uploads) + (if r.uploaded then [artPath] else [])
      // every path through the try/finally clears the guard; every other path leaves it alone
      ensures uploading == old(uploading)
    {
      if album == "" || artPath == "" {
        return defaultImage;
      }
      var cache := Load(file);
      if album in cache {
        var cached := cache[album];
        if live(cached) {
          return cached;
        }
        cache := cache - {album};
        file := Some(cache);
      }
      if uploading {
        return defaultImage;
      }
      // try ... finally: currently_uploading = False
      if !fileExists(artPath) {
        uploading := false;
        return defaultImage;
      }
      uploading := true;
      uploads := uploads + [artPath];
      match outcome {
        case Uploaded(u) =>
          cache := cache[album := u];
          file := Some(cache);
          url := u;
        case UploadFailed =>
          url := defaultImage;
      }
      uploading := false;
    }
  }
}
