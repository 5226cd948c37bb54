/**
 * `get_song_info` and its inner `safe_decode` (main.py:125-145): the player's
 * loosely typed metadata mapping becomes the four song fields, with fixed
 * fall-backs and a best-effort repair of mis-decoded text.
 */
module SongInfo {
  import opened Wrappers
  import opened TextCodec

  /** A metadata value: a JSON scalar as the player sends it, or raw bytes. */
  datatype Value = Null | Bool(b: bool) | Int(i: int) | Text(s: string) | Bytes(bytes: seq<Byte>)

  /** Python truthiness of a value (`None`, `False`, `0`, `""`, `b""` are false). */
  predicate Truthy(v: Value)
  {
    match v
    case Null => false
    case Bool(b) => b
    case Int(i) => i != 0
    case Text(s) => s != ""
    case Bytes(b) => b != []
  }

  /** Python's `a or b`: the first operand when it is truthy, else the second. */
  function Or(a: Value, b: Value): (r: Value)
    ensures Truthy(r) <==> Truthy(a) || Truthy(b)
    ensures Truthy(a) ==> r == a
    ensures !Truthy(a) ==> r == b
  {
    if Truthy(a) then a else b
  }

  function DigitChar(d: nat): (c: char)
    requires d < 10
    ensures '0' <= c <= '9' && c as int - '0' as int == d
  {
    ('0' as int + d) as char
  }

  /** The decimal digits of a natural number, as `str` prints them. */
  function Decimal(n: nat): (r: string)
    ensures r != []
    ensures forall i :: 0 <= i < |r| ==> '0' <= r[i] <= '9'
    ensures (r[0] == '0') <==> n == 0
  {
    if n < 10 then [DigitChar(n)] else Decimal(n / 10) + [DigitChar(n % 10)]
  }

  /** The number a string of decimal digits denotes. */
  function DigitsValue(s: string): nat
    requires forall i :: 0 <= i < |s| ==> '0' <= s[i] <= '9'
  {
    if s == [] then 0 else DigitsValue(s[..|s| - 1]) * 10 + (s[|s| - 1] as int - '0' as int)
  }

  /** The digits of `Decimal(n)` denote n. */
  lemma {:induction false} DecimalValue(n: nat)
    ensures DigitsValue(Decimal(n)) == n
  {
    if n >= 10 {
      var r := Decimal(n);
      assert r[..|r| - 1] == Decimal(n / 10);
      DecimalValue(n / 10);
    }
  }

  /** `str(i)` for an integer. */
  function IntToStr(i: int): (r: string)
    ensures r != []
    ensures r[0] == '-' <==> i < 0
  {
    if i < 0 then "-" + Decimal(-i) else Decimal(i)
  }

  /** `int(s)` for an optional minus sign followed by decimal digits. */
  function ParseInt(s: string): int
    requires s != []
    requires forall i :: 0 < i < |s| ==> '0' <= s[i] <= '9'
    requires s[0] == '-' || '0' <= s[0] <= '9'
  {
    if s[0] == '-' then 0 - DigitsValue(s[1..]) as int else DigitsValue(s)
  }

  /** `int(str(i)) == i`: the rendering is the signed decimal form of i. */
  lemma IntToStrValue(i: int)
    ensures var r := IntToStr(i);
      (forall k :: 0 < k < |r| ==> '0' <= r[k] <= '9') && (r[0] == '-' || '0' <= r[0] <= '9')
      && ParseInt(r) == i
      && (r[0] == '0' ==> r == "0")
      && (i < 0 ==> |r| >= 2 && r[1] != '0')
  {
    var r := IntToStr(i);
    if i < 0 {
      NegativeRendering(i);
      DecimalValue(-i);
    } else {
      DecimalValue(i);
    }
  }

  /** A negative number renders as a minus sign before the digits of its magnitude. */
  lemma NegativeRendering(i: int)
    requires i < 0
    ensures var r := IntToStr(i);
      && |r| >= 2 && r[0] == '-' && r[1..] == Decimal(-i)
      && (forall k :: 0 < k < |r| ==> '0' <= r[k] <= '9')
  {
    var r := IntToStr(i);
    var d := Decimal(-i);
    assert r == "-" + d;
    assert forall k :: 0 < k < |r| ==> r[k] == d[k - 1];
  }

  /**
   * `safe_decode`: bytes are read as UTF-8, or as Latin-1 when they are not
   * valid UTF-8; text goes through the mojibake repair; anything else is
   * rendered with `str`.
   */
  function SafeDecode(v: Value): (r: string)
    ensures Truthy(v) ==> r != ""
    ensures v.Text? && (exists i :: 0 <= i < |v.s| && v.s[i] as int >= 256) ==> r == v.s
    ensures v.Bytes? ==> (Utf8Decode(v.bytes).Some? ==> Utf8Encode(r) == v.bytes)
    ensures v.Bytes? ==> (Utf8Decode(v.bytes).None? ==> r == Latin1Decode(v.bytes))
    ensures v.Null? ==> r == "None"
    ensures v.Bool? ==> r == (if v.b then "True" else "False")
    ensures v.Int? ==> r == IntToStr(v.i)
  {
    match v
    case Bytes(b) =>
      (match Utf8Decode(b)
       case Some(t) => Utf8DecodeSound(b); t
       case None => Latin1Decode(b))
    case Text(s) => Repair(s)
    case Null => "None"
    case Bool(b) => if b then "True" else "False"
    case Int(i) => IntToStr(i)
  }

  /** The metadata mapping of a status: information, then category, then meta, each missing level read as empty. */
  datatype Category = Category(meta: Option<map<string, Value>>)
  datatype Information = Information(category: Option<Category>)

  /**
   * The player's status document: top-level `state`, `time`, `length` and
   * `information` (each None when the key is missing).
   */
  datatype Status = Status(
    state: Option<string>,
    time: Option<int>,
    length: Option<int>,
    information: Option<Information>)

  /** The four song fields `get_song_info` returns when there is song information. */
  datatype Song = Song(title: string, artist: string, album: string, artPath: string)

  /** The metadata mapping of the information block; a missing category or mapping reads as empty. */
  function Meta(info: Information): map<string, Value>
  {
    match info.category
    case None => map[]
    case Some(cat) => if cat.meta.Some? then cat.meta.value else map[]
  }

  /** `dict.get(key)`: None (Null) for a missing key. */
  function Get(m: map<string, Value>, key: string): Value
  {
    if key in m then m[key] else Null
  }

  function GetSongInfo(status: Option<Status>): (r: Option<Song>)
    ensures r.None? <==> status.None? || status.value.information.None?
    ensures r.Some? ==> r.value.title != ""
  {
    if status.None? || status.value.information.None? then None
    else
      var info := Meta(status.value.information.value);
      Some(Song(
        SafeDecode(Or(Or(Get(info, "title"), Get(info, "filename")), Text("Unknown"))),
        SafeDecode(Or(Get(info, "artist"), Text(""))),
        SafeDecode(Or(Get(info, "album"), Text(""))),
        SafeDecode(Or(Or(Get(info, "artwork_url"), Get(info, "artwork")), Text("")))))
  }

  /** The metadata mapping of a status that carries song information. */
  function MetaOf(status: Option<Status>): map<string, Value>
    requires status.Some? && status.value.information.Some?
  {
    Meta(status.value.information.value)
  }

  /** `safe_decode(a or b or u)` for an ASCII default u. */
  lemma ThreeWayFallback(a: Value, b: Value, u: string)
    requires forall i :: 0 <= i < |u| ==> u[i] as int < 0x80
    ensures var r := SafeDecode(Or(Or(a, b), Text(u)));
      && (Truthy(a) ==> r == SafeDecode(a))
      && (!Truthy(a) && Truthy(b) ==> r == SafeDecode(b))
      && (!Truthy(a) && !Truthy(b) ==> r == u)
  {
    RepairKeepsAscii(u);
  }

  /**
   * Title fall-back: a missing or falsy `title` gives way to `filename`, and
   * both missing or falsy give "Unknown".
   */
  lemma TitleFallback(status: Option<Status>)
    requires status.Some? && status.value.information.Some?
    ensures var m, title := MetaOf(status), GetSongInfo(status).value.title;
      && (Truthy(Get(m, "title")) ==> title == SafeDecode(m["title"]))
      && (!Truthy(Get(m, "title")) && Truthy(Get(m, "filename")) ==> title == SafeDecode(m["filename"]))
      && (!Truthy(Get(m, "title")) && !Truthy(Get(m, "filename")) ==> title == "Unknown")
  {
    var m := MetaOf(status);
    ThreeWayFallback(Get(m, "title"), Get(m, "filename"), "Unknown");
  }

  /** Artist and album default to the empty text when missing or falsy. */
  lemma ArtistAlbumDefault(status: Option<Status>)
    requires status.Some? && status.value.information.Some?
    ensures var m, song := MetaOf(status), GetSongInfo(status).value;
      && (Truthy(Get(m, "artist")) ==> song.artist == SafeDecode(m["artist"]))
      && (!Truthy(Get(m, "artist")) ==> song.artist == "")
      && (Truthy(Get(m, "album")) ==> song.album == SafeDecode(m["album"]))
      && (!Truthy(Get(m, "album")) ==> song.album == "")
  {
    RepairKeepsAscii("");
  }

  /** The art path comes from `artwork_url`, else `artwork`, else is empty. */
  lemma ArtPathFallback(status: Option<Status>)
    requires status.Some? && status.value.information.Some?
    ensures var m, art := MetaOf(status), GetSongInfo(status).value.artPath;
      && (Truthy(Get(m, "artwork_url")) ==> art == SafeDecode(m["artwork_url"]))
      && (!Truthy(Get(m, "artwork_url")) && Truthy(Get(m, "artwork")) ==> art == SafeDecode(m["artwork"]))
      && (!Truthy(Get(m, "artwork_url")) && !Truthy(Get(m, "artwork")) ==> art == "")
  {
    var m := MetaOf(status);
    ThreeWayFallback(Get(m, "artwork_url"), Get(m, "artwork"), "");
  }

  /** Plain ASCII text comes through `safe_decode` unchanged. */
  lemma AsciiTextKept(s: string)
    requires forall i :: 0 <= i < |s| ==> s[i] as int < 0x80
    ensures SafeDecode(Text(s)) == s
  {
    RepairKeepsAscii(s);
  }

  /** Text that was UTF-8 read as Latin-1 comes back as the intended text. */
  lemma MojibakeRepaired(t: string)
    ensures SafeDecode(Text(Latin1Decode(Utf8Encode(t)))) == t
  {
    RepairUndoesMojibake(t);
  }

  /**
   * Text whose Latin-1 bytes are not valid UTF-8 (correctly decoded accented
   * text such as "Café") comes through `safe_decode` unchanged.
   */
  lemma InvalidUtf8TextKept(s: string)
    requires Latin1Encode(s).Some? && Utf8Decode(Latin1Encode(s).value).None?
    ensures SafeDecode(Text(s)) == s
  {
    var r := Repair(s);
    if r != s {
      Utf8RoundTrip(r);
    }
  }

  /** UTF-8 bytes decode to the text they encode. */
  lemma Utf8BytesDecoded(t: string)
    ensures SafeDecode(Bytes(Utf8Encode(t))) == t
  {
    Utf8RoundTrip(t);
  }
}
