# VLC → Discord Rich Presence bridge, modelled in Dafny

The program polls VLC's HTTP status interface every few seconds and mirrors
what is playing into a Discord Rich Presence: title (with configured words
stripped), artist, cover art uploaded once to a file host and cached per
album in `art.json`, start/end timestamps while playing, and a paused or
stopped icon otherwise. This project models the deterministic core of
`main.py` and proves its properties:

- `text_codec.dfy` (module `TextCodec`): Latin-1 and strict UTF-8 as real
  functions on bytes, both round trips, and the mojibake repair used by
  `safe_decode`.
- `song_info.dfy` (module `SongInfo`): `get_song_info` / `safe_decode` over a
  metadata mapping of JSON scalars and bytes, with Python truthiness and
  `or` fall-backs.
- `title_strip.dfy` (module `TitleStrip`): `str.replace(word, "")`, the strip
  loop over `STRIP_WORDS`, and the parsing of that setting.
- `art_cache.dfy` (module `ArtCache`): `get_album_art_url` as a class holding
  the cache file and the `currently_uploading` guard, specified by a pure
  function of the old state and the outside answers.
- `reconcile.dfy` (module `Reconcile`): one iteration of the polling loop as a
  class that carries the six remembered values, normalisation of the art path
  and album, the timing arithmetic, change detection, and the "now playing"
  and idle update records.
- `wrappers.dfy` (module `Wrappers`): the `Option` type.

Outside answers are inputs: the status document (what `get_vlc_status`
returned), `now` (`int(time.time())`), URL liveness and file existence as
`string -> bool` functions, and the outcome of the one upload a call can make.
`urllib.parse.unquote` and `urlparse(u).path` are function-valued fields of
`Reconcile.UrlCodec`, taken as given.

The model follows `main.py` as written: the loop remembers six values (title, artist, album, art path, start,
end) and not the player state; start and end are computed whenever the state
is "playing", whatever the duration (the `duration > 0` test only decides
whether they go into the update); and an art path that is not a `file://` URL
is percent-decoded as a whole.

## Model

| member | source | states |
|---|---|---|
| TextCodec.Latin1Decode | main.py:134 | Latin-1 decoding never fails and maps each byte to the code point of the same value |
| TextCodec.Latin1Encode | main.py:137 | Latin-1 encoding succeeds exactly when every code point is below 256, and decoding its bytes gives the text back |
| TextCodec.Latin1RoundTrip | main.py:134-137 | encoding the Latin-1 reading of any bytes gives those bytes back |
| TextCodec.Utf8Decode | main.py:132 | a successful UTF-8 decode yields at most one character per byte, and yields empty text only for empty input |
| TextCodec.DecodeEncodedChar | main.py:132 | the decoder reads the UTF-8 form of any code point back as that code point, consuming exactly its bytes |
| TextCodec.EncodeDecodedChar | main.py:132 | every well-formed leading sequence the decoder accepts is the UTF-8 form of the code point it yields |
| TextCodec.Utf8RoundTrip | main.py:132 | decoding the UTF-8 encoding of any text gives that text |
| TextCodec.Utf8DecodeSound | main.py:132 | whatever decodes as UTF-8 is exactly the UTF-8 encoding of its result |
| TextCodec.AsciiDecodesAlike | main.py:132-137 | on bytes below 0x80, UTF-8 and Latin-1 decoding agree |
| TextCodec.Repair | main.py:135-139 | the text branch of `safe_decode` returns the input unchanged, unless the input is Latin-1 encodable and the result's UTF-8 bytes equal the input's Latin-1 bytes; text with a code point of 256 or more is always returned unchanged |
| TextCodec.RepairUndoesMojibake | main.py:137 | text that is UTF-8 read as Latin-1 is repaired to the intended text |
| TextCodec.RepairKeepsAscii | main.py:135-139 | pure-ASCII text is returned unchanged |
| SongInfo.Or | main.py:141-144 | Python `a or b`: the first operand when it is truthy, otherwise the second; truthy iff either operand is |
| SongInfo.Decimal | main.py:140 | the decimal rendering of a natural number is non-empty, all digits, and starts with 0 only for 0 |
| SongInfo.IntToStr | main.py:140 | `str(i)` is non-empty and starts with a minus sign exactly for negative numbers |
| SongInfo.DecimalValue | main.py:140 | the digits `str` prints for a natural number denote that number |
| SongInfo.IntToStrValue | main.py:140 | `str(i)` is a minus sign (for negative i) followed by digits without leading zeros ("0" alone for zero), and reading it back as a signed decimal gives i |
| SongInfo.SafeDecode | main.py:129-140 | a truthy value never decodes to empty text; text with a code point of 256 or more is kept; valid UTF-8 bytes decode to the text whose encoding they are; invalid bytes fall back to Latin-1; `None`, booleans and integers render as "None", "True"/"False" and the signed decimal form |
| SongInfo.GetSongInfo | main.py:125-145 | the four fields are absent exactly when the status is absent or has no `information`; otherwise the title is never empty |
| SongInfo.TitleFallback | main.py:141 | the title comes from a truthy `title`, else a truthy `filename`, else is "Unknown" |
| SongInfo.ArtistAlbumDefault | main.py:142-143 | artist and album come from truthy values and default to "" |
| SongInfo.ArtPathFallback | main.py:144 | the art path comes from a truthy `artwork_url`, else a truthy `artwork`, else is "" |
| SongInfo.AsciiTextKept | main.py:135-139 | ASCII text metadata passes through `safe_decode` unchanged |
| SongInfo.MojibakeRepaired | main.py:137 | mis-decoded UTF-8 text metadata is repaired to the intended text |
| SongInfo.InvalidUtf8TextKept | main.py:136-139 | text whose Latin-1 bytes are not valid UTF-8 (correctly decoded accented text) comes through unchanged |
| SongInfo.Utf8BytesDecoded | main.py:130-132 | byte metadata holding UTF-8 decodes to the text it encodes |
| TitleStrip.RemoveAll | main.py:191 | `str.replace(word, "")` never makes the text longer |
| TitleStrip.FirstOccurrenceGoes | main.py:191 | the leftmost occurrence is dropped and removal carries on after it, leaving the text before it intact; with `RemoveAbsent` this fixes the result on every input |
| TitleStrip.RepeatedWordGoes | main.py:191 | every occurrence goes: a word repeated twice back to back leaves nothing |
| TitleStrip.ExampleTwoOccurrences | main.py:191 | "abab" with "ab" removed is "" |
| TitleStrip.RemoveAllShortens | main.py:191 | removing a word that occurs makes the text strictly shorter |
| TitleStrip.RemoveAbsent | main.py:191 | removing a word that does not occur leaves the text as it is |
| TitleStrip.RemoveAllUnchangedIff | main.py:191 | the text is unchanged by the removal exactly when the word does not occur in it |
| TitleStrip.RemovalCanLeaveTheWord | main.py:191 | one left-to-right pass can leave an occurrence behind ("aabb" without "ab" is "ab") |
| TitleStrip.StripWord | main.py:190-191 | one iteration of the strip loop never lengthens the title |
| TitleStrip.StripAll | main.py:188-191 | removing all strip words in order never lengthens the title |
| TitleStrip.StripAllKeepsCleanTitle | main.py:188-191 | a title containing none of the strip words is left unchanged |
| TitleStrip.StripTitle | main.py:187-191 | the strip loop computes the in-order removal of every word, never lengthens the title, and returns the title itself for an empty word list |
| TitleStrip.StripExample | main.py:188-192 | "[HD]" then " (Remastered)" turn "Song [HD] (Remastered)" into "Song ", keeping the trailing space |
| TitleStrip.TrimStart | main.py:22 | `lstrip` keeps a suffix, drops only white space, and leaves no leading white space |
| TitleStrip.TrimEnd | main.py:22 | `rstrip` keeps a prefix, drops only white space, and leaves no trailing white space |
| TitleStrip.Strip | main.py:22 | `strip` leaves no white space at either end and introduces no character |
| TitleStrip.StripIsMiddle | main.py:22 | `strip` returns a slice `s[i..j]` with only white space before `i` and after `j`; with `Strip`'s end conditions this fixes the result |
| TitleStrip.Split | main.py:22 | `split(",")` yields at least one piece and no piece contains the separator |
| TitleStrip.SplitJoin | main.py:22 | joining the pieces of a split with the separator gives the original text |
| TitleStrip.JoinSplit | main.py:22 | splitting a join of separator-free pieces gives the pieces back |
| TitleStrip.ParseStripWords | main.py:22 | every configured strip word is non-empty, trimmed at both ends, and free of commas |
| TitleStrip.NonEmptyWords | main.py:22 | the kept pieces of a comma-free list are non-empty, trimmed and comma-free |
| TitleStrip.NoStripWordsByDefault | main.py:22 | an empty STRIP_WORDS setting yields no words |
| TitleStrip.StripWellFormed | main.py:22 | a well-formed word is unchanged by `strip` |
| TitleStrip.KeepsWellFormed | main.py:22 | a list of well-formed words passes the strip-and-filter step unchanged |
| TitleStrip.ParseJoin | main.py:22 | every non-empty list of well-formed words is what its comma-joined setting parses to |
| ArtCache.Load | main.py:44-50 | a missing or corrupt cache file reads as the empty cache |
| ArtCache.Resolve | main.py:65-99 | no album or art: default with nothing touched; live hit: cached URL with nothing touched; dead entry: evicted and written back; guard held: default with no upload; upload iff guard free and file exists; success: cached and returned; otherwise default and album uncached; other albums never touched |
| ArtCache.ArtResolver.constructor | main.py:28 | the resolver starts with the guard clear and no uploads |
| ArtCache.ArtResolver.GetAlbumArtUrl | main.py:65-99 | returns and writes exactly what `Resolve` prescribes, makes at most one upload (of the art path), and leaves the guard as it found it |
| Reconcile.StripWordsFromEnv | main.py:22 | a set STRIP_WORDS yields exactly its parse, an unset one no words, and every word is well formed |
| Reconcile.ConfigFromEnv | main.py:18-22 | each setting takes the environment value when set and the defaults "vlc", "stopped", "playing", "paused" otherwise; the strip words are those of `StripWordsFromEnv` |
| Reconcile.DropDriveSlash | main.py:171-172 | the first character is removed exactly when the path starts with "/" and contains ":", and then it was that "/" |
| Reconcile.CleanArtPath | main.py:168-175 | a `file://` URL becomes its percent-decoded path, with the leading "/" dropped exactly when the decoded path starts with "/" and contains ":"; any other non-empty path is only percent-decoded; "" stays "" |
| Reconcile.CleanAlbum | main.py:167 | a non-empty album is percent-decoded and an empty one stays empty |
| Reconcile.TimingOf | main.py:177-184 | start and end are present exactly when the state is "playing"; then now − start is the position and end − start the duration (missing values read as 0) |
| Reconcile.Normalize | main.py:164-184 | the snapshot has song fields exactly when `get_song_info` does, with the album and art path decoded, carries the raw state, and carries the timing `TimingOf` computes from the status and clock |
| Reconcile.SteadyState | main.py:185 | polling an unchanged snapshot again re-triggers only through a non-empty state |
| Reconcile.QuietWithoutPlayer | main.py:160-161 | with no status from the first poll on, nothing is sent |
| Reconcile.Details | main.py:187-196 | details are present exactly when there is a song whose stripped title is non-empty, and are then that stripped title (no longer than the title, and the title itself when there are no strip words) |
| Reconcile.NowPlayingDetermined | main.py:198-214 | the "now playing" description fixes every key and value of the record |
| Reconcile.BuildNowPlaying | main.py:198-214 | the record holds details, artwork and the fixed large text; state iff an artist; start and end only when playing with truthy times and positive duration; "Paused" with the paused icon and no times when paused; otherwise the playing icon iff the artwork is the default |
| Reconcile.ReconciliationLoop.constructor | main.py:160-161 | the loop starts with every remembered value absent and the guard clear |
| Reconcile.ReconciliationLoop.Poll | main.py:163-234 | sends iff the change condition holds; remembers the current six values only then; sends the idle record without consulting the resolver when the stripped title is empty; otherwise sends the "now playing" record around the resolved artwork, with the resolver's cache and uploads as prescribed |

## Left out

- HTTP: `upload_to_uguu`, `is_url_valid` and `get_vlc_status` are not modelled; their answers are inputs (an upload outcome, a liveness function, an optional status document).
- `os.path.exists` is an input function; `launch_vlc` (a subprocess) is not part of this model.
- The Discord client: the connect-and-retry loop (main.py:150-158) and `rpc.update` with its error handling are left out; `Poll` returns the record that would be passed to `rpc.update`. Update failures change nothing else, since the memory is written either way.
- `time.sleep` and `time.time`: the clock is the `now` input and the polling cadence is not modelled.
- Console output (`print`, colorama) is left out.
- `unquote` and `urlparse(...).path` are uninterpreted inputs (`UrlCodec`), so nothing is proved about percent-decoding itself.
- JSON: metadata values are null, booleans, integers, strings or bytes; floats, lists and objects are not modelled. The status fields `state`, `time` and `length` are taken to be a string and integers when present. `information`, `category` and `meta` are taken to be objects when present; a JSON null or non-object there would make `get_song_info` raise (main.py:128-144) outside any handler, while the model reads such a level as an empty mapping.
- Python strings holding lone surrogates (possible after JSON parsing) are not modelled; Dafny characters are Unicode scalar values.
- Writing art.json is taken to succeed; an I/O error in `save_art_cache` (which at main.py:82 would escape the loop, and at main.py:92 would turn a successful upload into the default) is not modelled.
- The guard is a plain field; concurrent callers are not modelled. `GetAlbumArtUrl` leaves the guard unchanged, so in this single-threaded program the guard is never set between calls.
