/** Google Reader stream identifiers (internal/googlereader/stream.go, prefix_suffix.go). */
module Streams {
  import opened Common
  import opened Numerals

  const STREAM_PREFIX := "user/-/state/com.google/"
  const LABEL_PREFIX := "user/-/label/"
  const FEED_PREFIX := "feed/"

  datatype StreamType =
    | NoStream | ReadStream | StarredStream | ReadingListStream | KeptUnreadStream
    | BroadcastStream | BroadcastFriendsStream | LabelStream | FeedStream | LikeStream

  datatype Stream = Stream(kind: StreamType, id: string)

  datatype StreamError = UnknownStream | UnknownStreamType

  // ----- The code -----

  /** %d */
  function Itoa(n: int): string { if n >= 0 then Print(n, 10) else "-" + Print(-n, 10) }

  function UserStreamPrefix(userID: int): string { "user/" + Itoa(userID) + "/state/com.google/" }

  function UserLabelPrefix(userID: int): string { "user/" + Itoa(userID) + "/label/" }

  function TrimPrefix(s: string, prefix: string): string {
    if prefix <= s then s[|prefix|..] else s
  }

  /** The suffix that names a state; labels and feeds have none. */
  function StateSuffix(kind: StreamType): Option<string> {
    match kind
    case ReadStream => Some("read")
    case StarredStream => Some("starred")
    case ReadingListStream => Some("reading-list")
    case KeptUnreadStream => Some("kept-unread")
    case BroadcastStream => Some("broadcast")
    case BroadcastFriendsStream => Some("broadcast-friends")
    case LikeStream => Some("like")
    case _ => None
  }

  function StateOf(id: string): Result<Stream, StreamError> {
    if id == "read" then Ok(Stream(ReadStream, ""))
    else if id == "starred" then Ok(Stream(StarredStream, ""))
    else if id == "reading-list" then Ok(Stream(ReadingListStream, ""))
    else if id == "kept-unread" then Ok(Stream(KeptUnreadStream, ""))
    else if id == "broadcast" then Ok(Stream(BroadcastStream, ""))
    else if id == "broadcast-friends" then Ok(Stream(BroadcastFriendsStream, ""))
    else if id == "like" then Ok(Stream(LikeStream, ""))
    else Err(UnknownStream)
  }

  function GetStream(s: string, userID: int): Result<Stream, StreamError> {
    if FEED_PREFIX <= s then Ok(Stream(FeedStream, TrimPrefix(s, FEED_PREFIX)))
    else if UserStreamPrefix(userID) <= s || STREAM_PREFIX <= s then
      StateOf(TrimPrefix(TrimPrefix(s, UserStreamPrefix(userID)), STREAM_PREFIX))
    else if UserLabelPrefix(userID) <= s || LABEL_PREFIX <= s then
      Ok(Stream(LabelStream, TrimPrefix(TrimPrefix(s, UserLabelPrefix(userID)), LABEL_PREFIX)))
    else if s == "" then Ok(Stream(NoStream, ""))
    else Err(UnknownStreamType)
  }

  /** getStreams: all streams, or the error of the first that is none. */
  method GetStreams(ids: seq<string>, userID: int) returns (r: Result<seq<Stream>, StreamError>)
    ensures r.Ok? <==> forall i :: 0 <= i < |ids| ==> GetStream(ids[i], userID).Ok?
    ensures r.Ok? ==> |r.value| == |ids| && forall i :: 0 <= i < |ids| ==> GetStream(ids[i], userID) == Ok(r.value[i])
    ensures r.Err? ==> exists i :: 0 <= i < |ids| && GetStream(ids[i], userID) == Err(r.error)
                                 && forall j :: 0 <= j < i ==> GetStream(ids[j], userID).Ok?
  {
    var streams: seq<Stream> := [];
    for i := 0 to |ids|
      invariant |streams| == i
      invariant forall j :: 0 <= j < i ==> GetStream(ids[j], userID) == Ok(streams[j])
    {
      var stream := GetStream(ids[i], userID);
      if stream.Err? {
        return Err(stream.error);
      }
      streams := streams + [stream.value];
    }
    r := Ok(streams);
  }

  // ----- The printers used by the handlers -----

  function FeedStreamID(feedID: int): string { FEED_PREFIX + Itoa(feedID) }

  function StateStreamID(userID: int, suffix: string): string { UserStreamPrefix(userID) + suffix }

  function LabelStreamID(userID: int, title: string): string { UserLabelPrefix(userID) + title }

  // ----- Round trips -----

  /** A printed number never looks like the "-" of the anonymous prefixes, nor contains a slash. */
  lemma ItoaIsNoDash(n: int)
    ensures Itoa(n) != [] && Itoa(n)[0] != '/'
    ensures Itoa(n)[0] == '-' ==> |Itoa(n)| > 1 && Itoa(n)[1] != '/'
  {
    if n >= 0 {
      ValueOfPrint(n, 10);
      assert DigitValue(Itoa(n)[0]) < 10;
    } else {
      ValueOfPrint(-n, 10);
      assert Itoa(n)[1] == Print(-n, 10)[0] && DigitValue(Itoa(n)[1]) < 10;
    }
  }

  /** The four user prefixes exclude one another, and the feed prefix excludes them all. */
  lemma PrefixesAreDisjoint(userID: int, s: string)
    ensures FEED_PREFIX <= s ==>
              !(UserStreamPrefix(userID) <= s) && !(STREAM_PREFIX <= s) && !(UserLabelPrefix(userID) <= s) && !(LABEL_PREFIX <= s)
    ensures UserStreamPrefix(userID) <= s ==> !(STREAM_PREFIX <= s) && !(UserLabelPrefix(userID) <= s) && !(LABEL_PREFIX <= s)
    ensures STREAM_PREFIX <= s ==> !(UserLabelPrefix(userID) <= s) && !(LABEL_PREFIX <= s)
    ensures UserLabelPrefix(userID) <= s ==> !(LABEL_PREFIX <= s)
  {
    ItoaIsNoDash(userID);
    var d := Itoa(userID);
    assert FEED_PREFIX[0] == 'f' && STREAM_PREFIX[0] == 'u' && LABEL_PREFIX[0] == 'u';
    assert STREAM_PREFIX[5] == '-' && STREAM_PREFIX[6] == '/' && STREAM_PREFIX[7] == 's' && LABEL_PREFIX[7] == 'l';
    var us, ul := UserStreamPrefix(userID), UserLabelPrefix(userID);
    assert us[5] == d[0] && ul[5] == d[0] && us[0] == ul[0] == 'u';
    assert us[5 + |d|] == '/' && us[6 + |d|] == 's' && ul[5 + |d|] == '/' && ul[6 + |d|] == 'l';
    assert |d| > 1 ==> us[6] == d[1] && ul[6] == d[1];
  }

  lemma TrimExactPrefix(prefix: string, rest: string)
    ensures prefix <= prefix + rest && TrimPrefix(prefix + rest, prefix) == rest
  {
  }

  /** Feed identifiers read back, for every feed id. */
  lemma FeedStreamRoundTrips(feedID: int, userID: int)
    ensures GetStream(FeedStreamID(feedID), userID) == Ok(Stream(FeedStream, Itoa(feedID)))
  {
    TrimExactPrefix(FEED_PREFIX, Itoa(feedID));
  }

  /** State identifiers read back, for every user and in the anonymous spelling. */
  lemma StateStreamRoundTrips(userID: int, kind: StreamType)
    requires StateSuffix(kind).Some?
    ensures GetStream(StateStreamID(userID, StateSuffix(kind).value), userID) == Ok(Stream(kind, ""))
    ensures GetStream(STREAM_PREFIX + StateSuffix(kind).value, userID) == Ok(Stream(kind, ""))
  {
    var suffix := StateSuffix(kind).value;
    SuffixNamesState(kind);
    StateReadsBack(userID, suffix);
  }

  lemma SuffixNamesState(kind: StreamType)
    requires StateSuffix(kind).Some?
    ensures StateOf(StateSuffix(kind).value) == Ok(Stream(kind, ""))
    ensures !(STREAM_PREFIX <= StateSuffix(kind).value)
  {
  }

  lemma StateReadsBack(userID: int, suffix: string)
    requires !(STREAM_PREFIX <= suffix)
    ensures GetStream(StateStreamID(userID, suffix), userID) == StateOf(suffix)
    ensures GetStream(STREAM_PREFIX + suffix, userID) == StateOf(suffix)
  {
    TrimExactPrefix(UserStreamPrefix(userID), suffix);
    TrimExactPrefix(STREAM_PREFIX, suffix);
    PrefixesAreDisjoint(userID, StateStreamID(userID, suffix));
    PrefixesAreDisjoint(userID, STREAM_PREFIX + suffix);
  }

  /** The seven states by name, for a user or for whoever asks; other names are no stream. */
  lemma StatesByName(userID: int, name: string)
    requires !("user/-/state/com.google/" <= name)
    ensures var r := GetStream("user/-/state/com.google/" + name, userID);
            && r == GetStream("user/" + Itoa(userID) + "/state/com.google/" + name, userID)
            && (r == Ok(Stream(ReadStream, "")) <==> name == "read")
            && (r == Ok(Stream(StarredStream, "")) <==> name == "starred")
            && (r == Ok(Stream(ReadingListStream, "")) <==> name == "reading-list")
            && (r == Ok(Stream(KeptUnreadStream, "")) <==> name == "kept-unread")
            && (r == Ok(Stream(BroadcastStream, "")) <==> name == "broadcast")
            && (r == Ok(Stream(BroadcastFriendsStream, "")) <==> name == "broadcast-friends")
            && (r == Ok(Stream(LikeStream, "")) <==> name == "like")
            && (r.Err? ==> r == Err(UnknownStream))
  {
    StateReadsBack(userID, name);
    StateNamed(name);
    assert "user/" + Itoa(userID) + "/state/com.google/" + name == StateStreamID(userID, name);
  }

  lemma StateNamed(name: string)
    ensures var r := StateOf(name);
            && (r == Ok(Stream(ReadStream, "")) <==> name == "read")
            && (r == Ok(Stream(StarredStream, "")) <==> name == "starred")
            && (r == Ok(Stream(ReadingListStream, "")) <==> name == "reading-list")
            && (r == Ok(Stream(KeptUnreadStream, "")) <==> name == "kept-unread")
            && (r == Ok(Stream(BroadcastStream, "")) <==> name == "broadcast")
            && (r == Ok(Stream(BroadcastFriendsStream, "")) <==> name == "broadcast-friends")
            && (r == Ok(Stream(LikeStream, "")) <==> name == "like")
            && (r.Err? ==> r == Err(UnknownStream))
  {
  }

  /** Feeds and labels by their spelling; a text without any of the prefixes is an error. */
  lemma SpelledStreams(userID: int, rest: string)
    ensures GetStream("feed/" + rest, userID) == Ok(Stream(FeedStream, rest))
    ensures GetStream("user/-/label/" + rest, userID) == Ok(Stream(LabelStream, rest))
    ensures GetStream("user/" + Itoa(userID) + "/label/" + rest, userID) == Ok(Stream(LabelStream, rest)) <==>
              !("user/-/label/" <= rest)
    ensures GetStream("", userID) == Ok(Stream(NoStream, ""))
    ensures rest != "" && rest[0] != 'f' && rest[0] != 'u' ==> GetStream(rest, userID) == Err(UnknownStreamType)
  {
    TrimExactPrefix("feed/", rest);
    AnonymousLabelRoundTrips(userID, rest);
    LabelStreamRoundTripsExactlyWhen(userID, rest);
    assert "user/" + Itoa(userID) + "/label/" + rest == LabelStreamID(userID, rest);
    assert FEED_PREFIX[0] == 'f' && STREAM_PREFIX[0] == 'u' && LABEL_PREFIX[0] == 'u';
    assert UserStreamPrefix(userID)[0] == 'u' && UserLabelPrefix(userID)[0] == 'u';
  }

  /** A label printed with the user's prefix reads back exactly when the title does not itself
      start with the anonymous label prefix, which would be trimmed too. */
  lemma LabelStreamRoundTripsExactlyWhen(userID: int, title: string)
    ensures GetStream(LabelStreamID(userID, title), userID) == Ok(Stream(LabelStream, title)) <==> !(LABEL_PREFIX <= title)
  {
    var s := LabelStreamID(userID, title);
    TrimExactPrefix(UserLabelPrefix(userID), title);
    PrefixesAreDisjoint(userID, s);
    assert GetStream(s, userID) == Ok(Stream(LabelStream, TrimPrefix(title, LABEL_PREFIX)));
    if LABEL_PREFIX <= title {
      assert |TrimPrefix(title, LABEL_PREFIX)| < |title|;
    }
  }

  /** Printed with the anonymous prefix every label reads back. */
  lemma AnonymousLabelRoundTrips(userID: int, title: string)
    ensures GetStream(LABEL_PREFIX + title, userID) == Ok(Stream(LabelStream, title))
  {
    var s := LABEL_PREFIX + title;
    TrimExactPrefix(LABEL_PREFIX, title);
    PrefixesAreDisjoint(userID, s);
  }
}
