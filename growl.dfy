/**
 * The Pianobar event script that forwards player events as Growl
 * notifications.  Pianobar writes `key=value` lines on standard input and
 * names the event as the script's first argument.  The script parses the
 * lines into a dictionary, derives the heart icon and the cover-art
 * fallback, and picks at most one notification from a first-match chain.
 * The Growl calls themselves are not modelled: `Select` returns the
 * notification that would be sent.
 */
module PianobarGrowl {
  import opened Wrappers
  import Decimal

  /** A dictionary value: an all-digit value is stored as an integer, anything else as text. */
  datatype Value = Int(n: nat) | Str(s: string)

  type Info = map<string, Value>

  /** How the script fails: a missing key, or `len()` of an integer cover art. */
  datatype Error = KeyError(key: string) | TypeError

  /** What `growl.notify` would be called with. */
  datatype Notification = Notification(noteType: string, icon: string, title: string, description: string)

  /** The enable switches at the top of the script, one per notification type. */
  datatype Flags = Flags(
    songStart: bool, songEnd: bool, songLove: bool, songBan: bool, songShelve: bool,
    songBookmark: bool, artistBookmark: bool, programError: bool, networkError: bool)

  /** Every notification is on except the one for the end of a song. */
  const DefaultFlags := Flags(true, false, true, true, true, true, true, true, true)

  // Dictionary keys.
  const TitleKey: string := "title"
  const ArtistKey: string := "artist"
  const AlbumKey: string := "album"
  const CoverArtKey: string := "coverArt"
  const RatingKey: string := "rating"
  const ProgramIconKey: string := "programIcon"
  const LovedIconKey: string := "lovedIcon"
  const PRetKey: string := "pRet"
  const PRetStrKey: string := "pRetStr"
  const WRetKey: string := "wRet"
  const WRetStrKey: string := "wRetStr"

  // Event names, as Pianobar passes them; `NoEvent` names none of them.
  const NoEvent: string := ""
  const SongStart: string := "songstart"
  const SongFinish: string := "songfinish"
  const SongLove: string := "songlove"
  const SongBan: string := "songban"
  const SongShelf: string := "songshelf"
  const SongBookmark: string := "songbookmark"
  const ArtistBookmark: string := "artistbookmark"

  // Notification types and fixed titles.
  const SongStartType: string := "Song Start"
  const SongEndType: string := "Song End"
  const SongLoveType: string := "Song Love"
  const SongBanType: string := "Song Ban"
  const SongShelveType: string := "Song Shelve"
  const SongBookmarkType: string := "Song Bookmark"
  const ArtistBookmarkType: string := "Artist Bookmark"
  const ProgramErrorType: string := "Program Error"
  const NetworkErrorType: string := "Network Error"
  const SongLovedTitle: string := "Song Loved"
  const SongBannedTitle: string := "Song Banned"
  const SongShelvedTitle: string := "Song Shelved"
  const SongBookmarkedTitle: string := "Song Bookmarked"
  const ArtistBookmarkedTitle: string := "Artist Bookmarked"
  const ProgramFailedTitle: string := "Pianobar Failed"
  const NetworkFailedTitle: string := "Network Failed"

  const Heart: string := " ♥"
  const NewLine: string := "\n"
  const IconScheme: string := "file://"
  const IconFile: string := "/pandora.png"

  // ---------------------------------------------------------------------
  // Parsing the standard input
  // ---------------------------------------------------------------------

  /** The characters `unicode.strip()` removes. */
  predicate IsWhitespace(c: char)
  {
    c == ' ' || '\t' <= c <= '\r' || '\U{001C}' <= c <= '\U{001F}' || c == '\U{0085}' || c == '\U{00A0}' ||
    c == '\U{1680}' || c == '\U{180E}' || '\U{2000}' <= c <= '\U{200A}' || c == '\U{2028}' ||
    c == '\U{2029}' || c == '\U{202F}' || c == '\U{205F}' || c == '\U{3000}'
  }

  /** `s` without its leading whitespace. */
  function StripStart(s: string): (r: string)
    ensures |r| <= |s|
  {
    if s != [] && IsWhitespace(s[0]) then StripStart(s[1..]) else s
  }

  /** `s` without its trailing whitespace. */
  function StripEnd(s: string): (r: string)
    ensures |r| <= |s|
  {
    if s != [] && IsWhitespace(s[|s| - 1]) then StripEnd(s[..|s| - 1]) else s
  }

  /** `s.strip()`. */
  function Strip(s: string): string
  {
    StripEnd(StripStart(s))
  }

  /** The index of the first `=` in `s`, or `|s|` when there is none. */
  function EqualsIndex(s: string): (i: nat)
    ensures i <= |s|
  {
    if s == [] || s[0] == '=' then 0 else 1 + EqualsIndex(s[1..])
  }

  /** `s.partition('=')` without the delimiter: the text before the first `=` and the text after it. */
  function Partition(s: string): (string, string)
  {
    var i := EqualsIndex(s);
    if i == |s| then (s, "") else (s[..i], s[i + 1..])
  }

  /** Stripping removes whitespace at the start and nothing else. */
  lemma {:induction false} StripStartRemovesWhitespace(s: string)
    ensures var r := StripStart(s);
      r == s[|s| - |r|..] && (r == [] || !IsWhitespace(r[0])) &&
      forall k :: 0 <= k < |s| - |r| ==> IsWhitespace(s[k])
    decreases |s|
  {
    if s != [] && IsWhitespace(s[0]) {
      StripStartRemovesWhitespace(s[1..]);
    }
  }

  /** Stripping removes whitespace at the end and nothing else. */
  lemma {:induction false} StripEndRemovesWhitespace(s: string)
    ensures var r := StripEnd(s);
      r == s[..|r|] && (r == [] || !IsWhitespace(r[|r| - 1])) &&
      forall k :: |r| <= k < |s| ==> IsWhitespace(s[k])
    decreases |s|
  {
    if s != [] && IsWhitespace(s[|s| - 1]) {
      StripEndRemovesWhitespace(s[..|s| - 1]);
    }
  }

  /** `EqualsIndex` finds the first `=`. */
  lemma {:induction false} EqualsIndexIsFirst(s: string)
    ensures var i := EqualsIndex(s);
      (i < |s| ==> s[i] == '=') && forall j :: 0 <= j < i ==> s[j] != '='
    decreases |s|
  {
    if s != [] && s[0] != '=' {
      EqualsIndexIsFirst(s[1..]);
    }
  }

  lemma {:induction false} EqualsIndexAfter(key: string, rest: string)
    requires '=' !in key && rest != [] && rest[0] == '='
    ensures EqualsIndex(key + rest) == |key|
    decreases |key|
  {
    if key != [] {
      assert (key + rest)[1..] == key[1..] + rest;
      EqualsIndexAfter(key[1..], rest);
    }
  }

  /** The key holds no `=`; key, `=` and value give back the line, and a line without `=` is all key. */
  lemma PartitionSplits(s: string)
    ensures '=' !in Partition(s).0
    ensures '=' in s ==> s == Partition(s).0 + "=" + Partition(s).1
    ensures '=' !in s ==> Partition(s) == (s, "")
  {
    var i := EqualsIndex(s);
    EqualsIndexIsFirst(s);
    if i == |s| {
      assert s[..i] == s;
    } else {
      assert s == s[..i] + "=" + s[i + 1..];
    }
  }

  /** A value as stored: a nonempty string of digits becomes its integer. */
  function ParseValue(v: string): (r: Value)
    ensures r.Int? <==> v != [] && Decimal.AllDigits(v)
    ensures r.Int? ==> r.n == Decimal.Value(v)
    ensures r.Str? ==> r.s == v
  {
    if v != [] && Decimal.AllDigits(v) then Int(Decimal.Value(v)) else Str(v)
  }

  /** Leading zeros do not change a stored number: `rating=01` is stored as the integer 1. */
  lemma ZeroPaddedNumber(ds: string)
    requires ds != [] && Decimal.AllDigits(ds)
    ensures ParseValue("0" + ds) == ParseValue(ds)
  {
    Decimal.ZeroPaddedValue(ds);
    assert forall k :: 1 <= k < |"0" + ds| ==> ("0" + ds)[k] == ds[k - 1];
  }

  /** How `format` writes a value into a notification. */
  function Text(v: Value): string
  {
    match v
    case Int(n) => Decimal.Show(n)
    case Str(s) => s
  }

  /** The key and value one input line stores. */
  function Entry(line: string): (string, Value)
  {
    var parts := Partition(Strip(line));
    (parts.0, ParseValue(parts.1))
  }

  /** The dictionary after the lines `lines`: each stores its entry, overwriting an earlier one. */
  function Collected(lines: seq<string>): Info
  {
    if lines == [] then map[]
    else
      var entry := Entry(lines[|lines| - 1]);
      Collected(lines[..|lines| - 1])[entry.0 := entry.1]
  }

  /** The parse loop over standard input. */
  method ParseInfo(lines: seq<string>) returns (info: Info)
    ensures info == Collected(lines)
  {
    info := map[];
    var i := 0;
    while i < |lines|
      invariant 0 <= i <= |lines|
      invariant info == Collected(lines[..i])
    {
      var parts := Partition(Strip(lines[i]));
      var key, text := parts.0, parts.1;
      var value: Value;
      if text != [] && Decimal.AllDigits(text) {
        value := Int(Decimal.Value(text));
      } else {
        value := Str(text);
      }
      assert (key, value) == Entry(lines[i]);
      assert lines[..i + 1][..i] == lines[..i] && lines[..i + 1][i] == lines[i];
      assert Collected(lines[..i + 1]) == Collected(lines[..i])[key := value];
      info := info[key := value];
      i := i + 1;
    }
    assert lines[..i] == lines;
  }

  /** Every line's key is in the dictionary. */
  lemma {:induction false} CollectedHasKey(lines: seq<string>, i: nat)
    requires i < |lines|
    ensures Entry(lines[i]).0 in Collected(lines)
    decreases |lines|
  {
    if i < |lines| - 1 {
      var init := lines[..|lines| - 1];
      assert init[i] == lines[i];
      CollectedHasKey(init, i);
    }
  }

  /** Every key of the dictionary comes from a line. */
  lemma {:induction false} CollectedKeyFromLine(lines: seq<string>, key: string)
    requires key in Collected(lines)
    ensures exists i :: 0 <= i < |lines| && Entry(lines[i]).0 == key
    decreases |lines|
  {
    var last := |lines| - 1;
    if Entry(lines[last]).0 != key {
      var init := lines[..last];
      CollectedKeyFromLine(init, key);
      var i :| 0 <= i < |init| && Entry(init[i]).0 == key;
      assert lines[i] == init[i];
    }
  }

  /** A key holds the value of the last line that names it. */
  lemma {:induction false} CollectedLastWins(lines: seq<string>, j: nat)
    requires j < |lines|
    requires forall k :: j < k < |lines| ==> Entry(lines[k]).0 != Entry(lines[j]).0
    ensures Entry(lines[j]).0 in Collected(lines)
    ensures Collected(lines)[Entry(lines[j]).0] == Entry(lines[j]).1
    decreases |lines|
  {
    if j < |lines| - 1 {
      var init := lines[..|lines| - 1];
      assert init[j] == lines[j];
      assert forall k :: j < k < |init| ==> init[k] == lines[k];
      CollectedLastWins(init, j);
    }
  }

  /** An integer value reads back from its text, and so does text that is not a number. */
  lemma ParseText(v: Value)
    requires v.Str? ==> v.s == [] || !Decimal.AllDigits(v.s)
    ensures ParseValue(Text(v)) == v
  {
  }

  /** A line that neither starts nor ends with whitespace is left as it is by `strip()`. */
  lemma UnspacedIsStripped(line: string)
    requires line != [] && !IsWhitespace(line[0]) && !IsWhitespace(line[|line| - 1])
    ensures Strip(line) == line
  {
    assert StripStart(line) == line;
  }

  /** The first `=` after a key without one splits the line into that key and the rest. */
  lemma PartitionOfPair(key: string, text: string)
    requires '=' !in key
    ensures Partition(key + "=" + text) == (key, text)
  {
    var line := key + "=" + text;
    assert line == key + ("=" + text);
    EqualsIndexAfter(key, "=" + text);
    assert line[..|key|] == key && line[|key| + 1..] == text;
  }

  /** A line `key=value` with no space around either part stores that value under that key. */
  lemma EntryOfPair(key: string, v: Value)
    requires key != [] && !IsWhitespace(key[0]) && '=' !in key
    requires v.Str? ==> (v.s == [] || !IsWhitespace(v.s[|v.s| - 1])) && (v.s == [] || !Decimal.AllDigits(v.s))
    ensures Entry(key + "=" + Text(v)) == (key, v)
  {
    var text := Text(v);
    var line := key + "=" + text;
    assert !IsWhitespace(line[|line| - 1]) by {
      if text == [] {
        assert line[|line| - 1] == '=';
      } else {
        assert line[|line| - 1] == text[|text| - 1];
        if v.Int? {
          assert Decimal.IsDigit(text[|text| - 1]);
        }
      }
    }
    assert line[0] == key[0];
    UnspacedIsStripped(line);
    PartitionOfPair(key, text);
    ParseText(v);
  }

  // ---------------------------------------------------------------------
  // Derived fields
  // ---------------------------------------------------------------------

  /** The icon shipped beside the script in directory `dir`. */
  function ProgramIcon(dir: string): string
  {
    IconScheme + dir + IconFile
  }

  /**
   * The dictionary with the derived fields: `programIcon`, `lovedIcon`
   * from the rating, and the program icon as cover art when the cover art
   * is empty.  `rating` is read before `coverArt`.
   */
  function Annotated(info: Info, dir: string): (r: Result<Info, Error>)
    ensures r.Err? <==> RatingKey !in info || CoverArtKey !in info || info[CoverArtKey].Int?
    ensures r.Err? ==> r.error == if RatingKey !in info then KeyError(RatingKey)
                                  else if CoverArtKey !in info then KeyError(CoverArtKey)
                                  else TypeError
    ensures r.Ok? ==> r.value.Keys == info.Keys + {ProgramIconKey, LovedIconKey}
    ensures r.Ok? ==> r.value[ProgramIconKey] == Str(ProgramIcon(dir))
    ensures r.Ok? ==> r.value[LovedIconKey] == Str(if info[RatingKey] == Int(1) then Heart else "")
    ensures r.Ok? ==> r.value[CoverArtKey] == if info[CoverArtKey] == Str("") then Str(ProgramIcon(dir)) else info[CoverArtKey]
    ensures r.Ok? ==> forall k :: k in info && k != ProgramIconKey && k != LovedIconKey && k != CoverArtKey ==> r.value[k] == info[k]
  {
    var icon := Str(ProgramIcon(dir));
    var withIcon := info[ProgramIconKey := icon];
    if RatingKey !in withIcon then Err(KeyError(RatingKey))
    else
      var loved := withIcon[LovedIconKey := Str(if withIcon[RatingKey] == Int(1) then Heart else "")];
      if CoverArtKey !in loved then Err(KeyError(CoverArtKey))
      else
        match loved[CoverArtKey]
        case Int(_) => Err(TypeError)
        case Str(art) => Ok(if art == [] then loved[CoverArtKey := icon] else loved)
  }

  /** The script up to the dispatch: parse standard input, then set the derived fields in place. */
  method ReadInfo(lines: seq<string>, dir: string) returns (r: Result<Info, Error>)
    ensures r == Annotated(Collected(lines), dir)
  {
    var info := ParseInfo(lines);
    var icon := Str(ProgramIcon(dir));
    info := info[ProgramIconKey := icon];
    if RatingKey !in info {
      return Err(KeyError(RatingKey));
    }
    if info[RatingKey] == Int(1) {
      info := info[LovedIconKey := Str(Heart)];
    } else {
      info := info[LovedIconKey := Str("")];
    }
    if CoverArtKey !in info {
      return Err(KeyError(CoverArtKey));
    }
    match info[CoverArtKey]
    case Int(_) =>
      return Err(TypeError);
    case Str(art) =>
      if art == [] {
        info := info[CoverArtKey := icon];
      }
    r := Ok(info);
  }

  // ---------------------------------------------------------------------
  // Choosing the notification
  // ---------------------------------------------------------------------

  /**
   * The text of each key in turn, read left to right as the call's
   * arguments are: the first missing key is the error.
   */
  function Fields(info: Info, keys: seq<string>): (r: Result<seq<string>, Error>)
    ensures r.Ok? <==> forall i :: 0 <= i < |keys| ==> keys[i] in info
    ensures r.Ok? ==> |r.value| == |keys| && forall i :: 0 <= i < |keys| ==> r.value[i] == Text(info[keys[i]])
    ensures r.Err? ==> exists i :: 0 <= i < |keys| && keys[i] !in info && r.error == KeyError(keys[i]) &&
                                   forall j :: 0 <= j < i ==> keys[j] in info
  {
    if keys == [] then Ok([])
    else if keys[0] !in info then Err(KeyError(keys[0]))
    else
      match Fields(info, keys[1..])
      case Err(e) =>
        var i :| 0 <= i < |keys[1..]| && keys[1..][i] !in info && e == KeyError(keys[1..][i]) &&
                 forall j :: 0 <= j < i ==> keys[1..][j] in info;
        assert forall j :: 0 <= j < i + 1 ==> keys[j] in info by {
          forall j | 0 <= j < i + 1 ensures keys[j] in info {
            if j > 0 {
              assert keys[j] == keys[1..][j - 1];
            }
          }
        }
        Err(e)
      case Ok(rest) =>
        assert forall i :: 1 <= i < |keys| ==> keys[i] == keys[1..][i - 1];
        Ok([Text(info[keys[0]])] + rest)
  }

  /** Song start and end: the title with the heart, then artist and album. */
  function SongNote(noteType: string, info: Info): Result<Option<Notification>, Error>
  {
    match Fields(info, [CoverArtKey, TitleKey, LovedIconKey, ArtistKey, AlbumKey])
    case Err(e) => Err(e)
    case Ok(f) => Ok(Some(Notification(noteType, f[0], f[1] + f[2], f[3] + NewLine + f[4])))
  }

  /** Love, ban, shelve and song bookmark: a fixed title, then title, artist and album. */
  function RatedNote(noteType: string, title: string, info: Info): Result<Option<Notification>, Error>
  {
    match Fields(info, [CoverArtKey, TitleKey, ArtistKey, AlbumKey])
    case Err(e) => Err(e)
    case Ok(f) => Ok(Some(Notification(noteType, f[0], title, f[1] + NewLine + f[2] + NewLine + f[3])))
  }

  /** Artist bookmark: the artist alone. */
  function ArtistNote(info: Info): Result<Option<Notification>, Error>
  {
    match Fields(info, [CoverArtKey, ArtistKey])
    case Err(e) => Err(e)
    case Ok(f) => Ok(Some(Notification(ArtistBookmarkType, f[0], ArtistBookmarkedTitle, f[1])))
  }

  /** Program and network failures: the program icon and the status text. */
  function FailureNote(noteType: string, title: string, textKey: string, info: Info): Result<Option<Notification>, Error>
  {
    match Fields(info, [ProgramIconKey, textKey])
    case Err(e) => Err(e)
    case Ok(f) => Ok(Some(Notification(noteType, f[0], title, f[1])))
  }

  /** The event names a notification that is switched on. */
  predicate EventEnabled(event: string, flags: Flags)
  {
    (event == SongStart && flags.songStart) || (event == SongFinish && flags.songEnd) ||
    (event == SongLove && flags.songLove) || (event == SongBan && flags.songBan) ||
    (event == SongShelf && flags.songShelve) || (event == SongBookmark && flags.songBookmark) ||
    (event == ArtistBookmark && flags.artistBookmark)
  }

  /**
   * The first-match chain: the event's own notification when it is
   * switched on; otherwise a program failure (`pRet` other than 1), then a
   * network failure (`wRet` other than 1); otherwise nothing.
   */
  function Select(event: string, flags: Flags, info: Info): Result<Option<Notification>, Error>
  {
    if event == SongStart && flags.songStart then SongNote(SongStartType, info)
    else if event == SongFinish && flags.songEnd then SongNote(SongEndType, info)
    else if event == SongLove && flags.songLove then RatedNote(SongLoveType, SongLovedTitle, info)
    else if event == SongBan && flags.songBan then RatedNote(SongBanType, SongBannedTitle, info)
    else if event == SongShelf && flags.songShelve then RatedNote(SongShelveType, SongShelvedTitle, info)
    else if event == SongBookmark && flags.songBookmark then RatedNote(SongBookmarkType, SongBookmarkedTitle, info)
    else if event == ArtistBookmark && flags.artistBookmark then ArtistNote(info)
    else if PRetKey !in info then Err(KeyError(PRetKey))
    else if info[PRetKey] != Int(1) && flags.programError then
      FailureNote(ProgramErrorType, ProgramFailedTitle, PRetStrKey, info)
    else if WRetKey !in info then Err(KeyError(WRetKey))
    else if info[WRetKey] != Int(1) && flags.networkError then
      FailureNote(NetworkErrorType, NetworkFailedTitle, WRetStrKey, info)
    else Ok(None)
  }

  /** Changing a key that is not read leaves the fields as they were. */
  lemma {:induction false} FieldsIgnoreOtherKeys(info: Info, keys: seq<string>, k: string, v: Value)
    requires k !in keys
    ensures Fields(info[k := v], keys) == Fields(info, keys)
    decreases |keys|
  {
    if keys != [] {
      assert keys[0] in keys;
      assert forall j :: 0 <= j < |keys[1..]| ==> keys[1..][j] in keys;
      FieldsIgnoreOtherKeys(info, keys[1..], k, v);
    }
  }

  /** An event that is switched off is treated as no event: only the status checks remain. */
  lemma DisabledEventFallsThrough(event: string, flags: Flags, info: Info)
    requires !EventEnabled(event, flags)
    ensures Select(event, flags, info) == Select(NoEvent, flags, info)
  {
  }

  /** The exit statuses are consulted only when no switched-on event matches. */
  lemma EnabledEventIgnoresStatus(event: string, flags: Flags, info: Info, pRet: Value, wRet: Value)
    requires EventEnabled(event, flags)
    ensures Select(event, flags, info) == Select(event, flags, info[PRetKey := pRet][WRetKey := wRet])
  {
    FieldsIgnoreStatus(info, [CoverArtKey, TitleKey, LovedIconKey, ArtistKey, AlbumKey], pRet, wRet);
    FieldsIgnoreStatus(info, [CoverArtKey, TitleKey, ArtistKey, AlbumKey], pRet, wRet);
    FieldsIgnoreStatus(info, [CoverArtKey, ArtistKey], pRet, wRet);
  }

  lemma FieldsIgnoreStatus(info: Info, keys: seq<string>, pRet: Value, wRet: Value)
    requires forall i :: 0 <= i < |keys| ==> keys[i] != PRetKey && keys[i] != WRetKey
    ensures Fields(info[PRetKey := pRet][WRetKey := wRet], keys) == Fields(info, keys)
  {
    FieldsIgnoreOtherKeys(info[PRetKey := pRet], keys, WRetKey, wRet);
    FieldsIgnoreOtherKeys(info, keys, PRetKey, pRet);
  }

  /**
   * With no switched-on event, a failed program run is reported whatever
   * the network status is, even when `wRet` is missing.
   */
  lemma ProgramErrorFirst(event: string, flags: Flags, info: Info)
    requires !EventEnabled(event, flags) && flags.programError
    requires PRetKey in info && info[PRetKey] != Int(1)
    requires ProgramIconKey in info && PRetStrKey in info
    ensures Select(event, flags, info) ==
            Ok(Some(Notification(ProgramErrorType, Text(info[ProgramIconKey]), ProgramFailedTitle, Text(info[PRetStrKey]))))
  {
    assert Fields(info, [ProgramIconKey, PRetStrKey]).value == [Text(info[ProgramIconKey]), Text(info[PRetStrKey])];
  }

  /**
   * A failure notification means that status really failed: a program
   * error needs `pRet` other than 1, a network error needs `wRet` other
   * than 1 and no reportable program error before it.
   */
  lemma FailureNotesMeanFailure(event: string, flags: Flags, info: Info)
    ensures var r := Select(event, flags, info);
      r.Ok? && r.value.Some? && r.value.value.noteType == ProgramErrorType ==>
        !EventEnabled(event, flags) && PRetKey in info && info[PRetKey] != Int(1) && flags.programError
    ensures var r := Select(event, flags, info);
      r.Ok? && r.value.Some? && r.value.value.noteType == NetworkErrorType ==>
        !EventEnabled(event, flags) && PRetKey in info && (info[PRetKey] == Int(1) || !flags.programError) &&
        WRetKey in info && info[WRetKey] != Int(1) && flags.networkError
  {
    assert ProgramErrorType != SongStartType && ProgramErrorType != SongEndType && ProgramErrorType != SongLoveType;
    assert ProgramErrorType != SongBanType && ProgramErrorType != SongShelveType;
    assert ProgramErrorType != SongBookmarkType && ProgramErrorType != ArtistBookmarkType;
    assert ProgramErrorType != NetworkErrorType;
    assert NetworkErrorType != SongStartType && NetworkErrorType != SongEndType && NetworkErrorType != SongLoveType;
    assert NetworkErrorType != SongBanType && NetworkErrorType != SongShelveType;
    assert NetworkErrorType != SongBookmarkType && NetworkErrorType != ArtistBookmarkType;
  }

  /** With the default switches the end of a song is not announced; a failed program run is. */
  lemma SongFinishReportsProgramError(info: Info)
    requires PRetKey in info && info[PRetKey] != Int(1)
    requires ProgramIconKey in info && PRetStrKey in info
    ensures Select(SongFinish, DefaultFlags, info) ==
            Ok(Some(Notification(ProgramErrorType, Text(info[ProgramIconKey]), ProgramFailedTitle, Text(info[PRetStrKey]))))
  {
    assert !EventEnabled(SongFinish, DefaultFlags);
    ProgramErrorFirst(SongFinish, DefaultFlags, info);
  }

  /**
   * The song-start and song-end notifications of a parsed dictionary: the
   * event's type, the cover art or, when it is empty, the program icon; the
   * title with a heart exactly when the rating is 1; artist and album on
   * two lines.
   */
  lemma SongNotification(event: string, info: Info, dir: string, flags: Flags)
    requires (event == SongStart && flags.songStart) || (event == SongFinish && flags.songEnd)
    requires Annotated(info, dir).Ok?
    requires TitleKey in info && ArtistKey in info && AlbumKey in info
    ensures Select(event, flags, Annotated(info, dir).value) ==
            Ok(Some(Notification(
              if event == SongStart then SongStartType else SongEndType,
              if info[CoverArtKey] == Str("") then ProgramIcon(dir) else Text(info[CoverArtKey]),
              Text(info[TitleKey]) + (if info[RatingKey] == Int(1) then Heart else ""),
              Text(info[ArtistKey]) + NewLine + Text(info[AlbumKey]))))
  {
    var a := Annotated(info, dir).value;
    assert TitleKey != ProgramIconKey && TitleKey != LovedIconKey && TitleKey != CoverArtKey;
    assert ArtistKey != ProgramIconKey && ArtistKey != LovedIconKey && ArtistKey != CoverArtKey;
    assert AlbumKey != ProgramIconKey && AlbumKey != LovedIconKey && AlbumKey != CoverArtKey;
    assert a[TitleKey] == info[TitleKey] && a[ArtistKey] == info[ArtistKey] && a[AlbumKey] == info[AlbumKey];
    var keys := [CoverArtKey, TitleKey, LovedIconKey, ArtistKey, AlbumKey];
    assert forall i :: 0 <= i < |keys| ==> keys[i] in a;
    var f := Fields(a, keys).value;
    assert f[0] == Text(a[CoverArtKey]) && f[1] == Text(a[TitleKey]) && f[2] == Text(a[LovedIconKey]);
    assert f[3] == Text(a[ArtistKey]) && f[4] == Text(a[AlbumKey]);
  }

  /**
   * Love, ban, shelve and song bookmark: the event's own type and fixed
   * title, the cover art, and title, artist and album on three lines.
   */
  lemma RatedNotification(event: string, flags: Flags, info: Info)
    requires EventEnabled(event, flags)
    requires event == SongLove || event == SongBan || event == SongShelf || event == SongBookmark
    requires CoverArtKey in info && TitleKey in info && ArtistKey in info && AlbumKey in info
    ensures var text := Text(info[TitleKey]) + NewLine + Text(info[ArtistKey]) + NewLine + Text(info[AlbumKey]);
      var icon := Text(info[CoverArtKey]);
      && (event == SongLove ==> Select(event, flags, info) == Ok(Some(Notification(SongLoveType, icon, SongLovedTitle, text))))
      && (event == SongBan ==> Select(event, flags, info) == Ok(Some(Notification(SongBanType, icon, SongBannedTitle, text))))
      && (event == SongShelf ==> Select(event, flags, info) == Ok(Some(Notification(SongShelveType, icon, SongShelvedTitle, text))))
      && (event == SongBookmark ==>
            Select(event, flags, info) == Ok(Some(Notification(SongBookmarkType, icon, SongBookmarkedTitle, text))))
  {
    var keys := [CoverArtKey, TitleKey, ArtistKey, AlbumKey];
    assert forall i :: 0 <= i < |keys| ==> keys[i] in info;
    var f := Fields(info, keys).value;
    assert f[0] == Text(info[CoverArtKey]) && f[1] == Text(info[TitleKey]);
    assert f[2] == Text(info[ArtistKey]) && f[3] == Text(info[AlbumKey]);
  }

  /** Artist bookmark: the cover art, a fixed title and the artist alone. */
  lemma ArtistBookmarkNotification(flags: Flags, info: Info)
    requires flags.artistBookmark && CoverArtKey in info && ArtistKey in info
    ensures Select(ArtistBookmark, flags, info) ==
            Ok(Some(Notification(ArtistBookmarkType, Text(info[CoverArtKey]), ArtistBookmarkedTitle, Text(info[ArtistKey]))))
  {
    assert Fields(info, [CoverArtKey, ArtistKey]).value == [Text(info[CoverArtKey]), Text(info[ArtistKey])];
  }

  /**
   * With no switched-on event and no reportable program failure, a failed
   * network run is reported with the program icon and `wRetStr`.
   */
  lemma NetworkErrorSecond(event: string, flags: Flags, info: Info)
    requires !EventEnabled(event, flags)
    requires PRetKey in info && (info[PRetKey] == Int(1) || !flags.programError)
    requires WRetKey in info && info[WRetKey] != Int(1) && flags.networkError
    requires ProgramIconKey in info && WRetStrKey in info
    ensures Select(event, flags, info) ==
            Ok(Some(Notification(NetworkErrorType, Text(info[ProgramIconKey]), NetworkFailedTitle, Text(info[WRetStrKey]))))
  {
    assert Fields(info, [ProgramIconKey, WRetStrKey]).value == [Text(info[ProgramIconKey]), Text(info[WRetStrKey])];
  }

  /**
   * With no switched-on event the statuses decide: a missing `pRet`, then
   * a missing `wRet` past a program check that did not fire, is a key
   * error; with nothing failed (or its notification off) nothing is sent.
   */
  lemma StatusChecks(event: string, flags: Flags, info: Info)
    requires !EventEnabled(event, flags)
    ensures PRetKey !in info ==> Select(event, flags, info) == Err(KeyError(PRetKey))
    ensures PRetKey in info && (info[PRetKey] == Int(1) || !flags.programError) && WRetKey !in info ==>
              Select(event, flags, info) == Err(KeyError(WRetKey))
    ensures PRetKey in info && (info[PRetKey] == Int(1) || !flags.programError) &&
            WRetKey in info && (info[WRetKey] == Int(1) || !flags.networkError) ==>
              Select(event, flags, info) == Ok(None)
  {
  }

  /** The whole script for the event `event`: the notification it sends, if any, or how it fails. */
  method RunScript(lines: seq<string>, dir: string, event: string, flags: Flags)
    returns (r: Result<Option<Notification>, Error>)
    ensures Annotated(Collected(lines), dir).Err? ==> r == Err(Annotated(Collected(lines), dir).error)
    ensures Annotated(Collected(lines), dir).Ok? ==> r == Select(event, flags, Annotated(Collected(lines), dir).value)
  {
    var info := ReadInfo(lines, dir);
    match info
    case Err(e) =>
      r := Err(e);
    case Ok(annotated) =>
      r := Select(event, flags, annotated);
  }
}
