/** The per-chat transcript cache behind the YouTube follow-up questions.
    Each chat owns an insertion-ordered map from video URL to its cached
    entry (an OrderedDict); a second map remembers the last URL processed in
    each chat. Storing an entry writes it in place when the URL is already
    cached, otherwise appends it, and then evicts the oldest entries while the
    room is over its limit. */
module TranscriptCache {
  import opened PyText

  type Chat = string
  type Url = string

  /** A cached transcript; the timestamp is an opaque value supplied by the caller. */
  datatype Entry = Entry(title: string, transcript: string, stamp: nat)

  /** One chat's cache, oldest insertion first. */
  type Room = seq<(Url, Entry)>

  datatype Cache = Cache(rooms: map<Chat, Room>, last: map<Chat, Url>)

  /** The outcome of a store: the new cache, and whether the eviction loop
      raised (popping from an empty room, reachable only with a negative limit). */
  datatype Stored = Stored(cache: Cache, raisedKeyError: bool)

  /** An OrderedDict never holds a key twice. */
  predicate DistinctUrls(room: Room) {
    forall i, j :: 0 <= i < j < |room| ==> room[i].0 != room[j].0
  }

  predicate Valid(c: Cache) {
    forall chat :: chat in c.rooms ==> DistinctUrls(c.rooms[chat])
  }

  /** The position of `url` in the room. */
  function UrlIndex(room: Room, url: Url): (k: nat)
    requires url in Firsts(room)
    ensures k < |room| && room[k].0 == url
    ensures forall i :: 0 <= i < k ==> room[i].0 != url
  {
    if room[0].0 == url then 0
    else
      var rest := room[1..];
      assert url in Firsts(rest) by {
        assert Firsts(room) == [room[0].0] + Firsts(rest);
      }
      var k := UrlIndex(rest, url);
      assert rest[k] == room[k + 1];
      1 + k
  }

  /** `room.get(url)`. */
  function Lookup(room: Room, url: Url): (r: Option<Entry>)
    ensures r.Some? <==> url in Firsts(room)
    ensures r.Some? ==> exists i :: 0 <= i < |room| && room[i] == (url, r.value)
  {
    if url in Firsts(room) then Some(room[UrlIndex(room, url)].1) else None
  }

  /** `room[url] = e`: an existing key keeps its position and takes the new
      value; a new key is appended; every other entry stays where it was. */
  function Put(room: Room, url: Url, e: Entry): (r: Room)
    ensures url in Firsts(room) ==> Firsts(r) == Firsts(room)
    ensures url !in Firsts(room) ==> r == room + [(url, e)]
    ensures forall i :: 0 <= i < |room| && room[i].0 != url ==> r[i] == room[i]
    ensures Lookup(r, url) == Some(e)
  {
    if url in Firsts(room) then
      var k := UrlIndex(room, url);
      var r := room[k := (url, e)];
      assert Firsts(r) == Firsts(room);
      assert UrlIndex(r, url) == k;
      r
    else
      var r := room + [(url, e)];
      assert Firsts(r) == Firsts(room) + [url];
      assert UrlIndex(r, url) == |room|;
      r
  }

  /** Storing never repeats a URL. */
  lemma PutKeepsDistinct(room: Room, url: Url, e: Entry)
    requires DistinctUrls(room)
    ensures DistinctUrls(Put(room, url, e))
  {
    var r := Put(room, url, e);
    assert forall i :: 0 <= i < |r| ==> r[i].0 == Firsts(r)[i];
    assert forall i :: 0 <= i < |room| ==> room[i].0 == Firsts(room)[i];
  }

  /** Storing one URL leaves the lookup of every other URL unchanged. */
  lemma PutKeepsOthers(room: Room, url: Url, e: Entry, u: Url)
    requires u != url
    ensures Lookup(Put(room, url, e), u) == Lookup(room, u)
  {
    var r := Put(room, url, e);
    assert Firsts(r) == Firsts(room) || Firsts(r) == Firsts(room) + [url];
    if u in Firsts(room) {
      var k := UrlIndex(room, u);
      assert r[k] == room[k];
      assert forall i :: 0 <= i < k ==> r[i].0 != u by {
        forall i | 0 <= i < k ensures r[i].0 != u {
          assert Firsts(r)[i] == Firsts(room)[i];
        }
      }
      assert UrlIndex(r, u) == k;
    }
  }

  /** The eviction loop `while len(room) > max: room.popitem(last=False)`. */
  function Evict(room: Room, max: int): (r: (Room, bool))
    decreases |room|
  {
    if |room| <= max then (room, false)
    else if |room| == 0 then ([], true)
    else Evict(room[1..], max)
  }

  /** Eviction drops the oldest entries and keeps the newest `max` of them; a
      negative limit empties the room and then raises. */
  lemma {:induction false} EvictKeepsNewest(room: Room, max: int)
    ensures var (r, raised) := Evict(room, max);
      && |r| <= |room| && r == room[|room| - |r|..]
      && (0 <= max ==> |r| == Min(max, |room|) && !raised)
      && (max < 0 ==> r == [] && raised)
    decreases |room|
  {
    if |room| > max && |room| > 0 {
      EvictKeepsNewest(room[1..], max);
    }
  }

  /** `r` is what is left of `room` after dropping some of its oldest entries. */
  predicate NewestOf(r: Room, room: Room) {
    |r| <= |room| && r == room[|room| - |r|..]
  }

  /** The room of `chat`, empty when the chat has none yet. */
  function RoomOf(c: Cache, chat: Chat): Room {
    if chat in c.rooms then c.rooms[chat] else []
  }

  /** One room after storing `e` under `url` and evicting down to `maxCached`. */
  function StoreInRoom(room: Room, maxCached: int, url: Url, e: Entry): (r: (Room, bool))
    ensures NewestOf(r.0, Put(room, url, e))
    ensures 0 <= maxCached ==> |r.0| <= maxCached && !r.1
    ensures maxCached < 0 ==> r.0 == [] && r.1
    ensures DistinctUrls(room) ==> DistinctUrls(r.0)
  {
    var p := Put(room, url, e);
    EvictKeepsNewest(p, maxCached);
    var r := Evict(p, maxCached);
    assert DistinctUrls(room) ==> DistinctUrls(r.0) by {
      if DistinctUrls(room) {
        PutKeepsDistinct(room, url, e);
        SuffixKeepsDistinct(p, |p| - |r.0|);
      }
    }
    r
  }

  lemma SuffixKeepsDistinct(room: Room, d: nat)
    requires DistinctUrls(room) && d <= |room|
    ensures DistinctUrls(room[d..])
  {
    forall i, j | 0 <= i < j < |room[d..]| ensures room[d..][i].0 != room[d..][j].0 {
      assert room[d..][i] == room[d + i] && room[d..][j] == room[d + j];
    }
  }

  /** A room may change only for `chat`: validity is kept when the new room
      is valid. */
  lemma ReplaceRoomKeepsValid(c: Cache, chat: Chat, room: Room, last: map<Chat, Url>)
    requires Valid(c) && DistinctUrls(room)
    ensures Valid(Cache(c.rooms[chat := room], last))
  {
    var rooms := c.rooms[chat := room];
    forall ch | ch in rooms ensures DistinctUrls(rooms[ch]) {
      if ch != chat {
        assert rooms[ch] == c.rooms[ch];
      }
    }
  }

  /** `_cache_transcript` of the current plugin: nothing happens when caching is
      disabled; otherwise the entry is stored in the chat's room, the chat's
      last URL is set, and the room is cut back to `maxCached` entries, oldest
      first. No other chat is touched. */
  function CacheTranscript(c: Cache, enabled: bool, maxCached: int, chat: Chat, url: Url, e: Entry): (s: Stored)
    ensures !enabled ==> s == Stored(c, false)
    ensures enabled ==> chat in s.cache.rooms && chat in s.cache.last && s.cache.last[chat] == url
    ensures enabled ==> NewestOf(s.cache.rooms[chat], Put(RoomOf(c, chat), url, e))
    ensures enabled && 0 <= maxCached ==> |s.cache.rooms[chat]| <= maxCached && !s.raisedKeyError
    ensures enabled && maxCached < 0 ==> s.cache.rooms[chat] == [] && s.raisedKeyError
    ensures forall ch :: ch in s.cache.rooms <==> ch in c.rooms || (enabled && ch == chat)
    ensures forall ch :: ch in s.cache.last <==> ch in c.last || (enabled && ch == chat)
    ensures forall other :: other != chat && other in c.rooms ==> s.cache.rooms[other] == c.rooms[other]
    ensures forall other :: other != chat && other in c.last ==> s.cache.last[other] == c.last[other]
    ensures Valid(c) ==> Valid(s.cache)
  {
    if !enabled then Stored(c, false)
    else
      var stored := StoreInRoom(RoomOf(c, chat), maxCached, url, e);
      assert Valid(c) ==> DistinctUrls(RoomOf(c, chat));
      Stored(SetRoom(c, chat, stored.0, url), stored.1)
  }

  /** The chat's room replaced and its last URL set; no other chat changes. */
  function SetRoom(c: Cache, chat: Chat, room: Room, url: Url): (s: Cache)
    ensures chat in s.rooms && s.rooms[chat] == room
    ensures chat in s.last && s.last[chat] == url
    ensures forall ch :: ch in s.rooms <==> ch in c.rooms || ch == chat
    ensures forall ch :: ch in s.last <==> ch in c.last || ch == chat
    ensures forall other :: other != chat && other in c.rooms ==> s.rooms[other] == c.rooms[other]
    ensures forall other :: other != chat && other in c.last ==> s.last[other] == c.last[other]
    ensures Valid(c) && DistinctUrls(room) ==> Valid(s)
  {
    var s := Cache(c.rooms[chat := room], c.last[chat := url]);
    assert Valid(c) && DistinctUrls(room) ==> Valid(s) by {
      if Valid(c) && DistinctUrls(room) {
        ReplaceRoomKeepsValid(c, chat, room, s.last);
      }
    }
    s
  }

  /** The transcript a follow-up question in `chat` is answered from: the
      entry of the chat's last URL, when it is still cached. */
  function LastTranscript(c: Cache, chat: Chat): (r: Option<Entry>)
    ensures r.Some? ==> chat in c.last && chat in c.rooms && Lookup(c.rooms[chat], c.last[chat]) == r
    ensures r.None? ==> chat !in c.last || chat !in c.rooms || c.last[chat] !in Firsts(c.rooms[chat])
  {
    if chat in c.last && chat in c.rooms then Lookup(c.rooms[chat], c.last[chat]) else None
  }

  /** Caching a transcript makes it the one follow-up questions are answered
      from, unless eviction removes it: a limit of at least one always keeps a
      newly appended URL, and keeps a re-stored URL when the room was within
      its limit. */
  lemma CachedIsLast(c: Cache, maxCached: int, chat: Chat, url: Url, e: Entry)
    requires Valid(c)
    requires 1 <= maxCached
    requires url in Firsts(RoomOf(c, chat)) ==> |RoomOf(c, chat)| <= maxCached
    ensures LastTranscript(CacheTranscript(c, true, maxCached, chat, url, e).cache, chat) == Some(e)
  {
    StoredIsFound(RoomOf(c, chat), maxCached, url, e);
  }

  lemma StoredIsFound(room: Room, maxCached: int, url: Url, e: Entry)
    requires DistinctUrls(room)
    requires 1 <= maxCached
    requires url in Firsts(room) ==> |room| <= maxCached
    ensures Lookup(StoreInRoom(room, maxCached, url, e).0, url) == Some(e)
  {
    var p := Put(room, url, e);
    var r := StoreInRoom(room, maxCached, url, e).0;
    EvictKeepsNewest(p, maxCached);
    if url in Firsts(room) {
      assert |p| == |room|;
      assert r == p;
    } else {
      assert p[|p| - 1] == (url, e);
      assert r[|r| - 1] == (url, e);
      LookupUnique(r, |r| - 1);
    }
  }

  /** In a room without repeated URLs, looking up the URL at position `i`
      yields the entry at position `i`. */
  lemma {:induction false} LookupUnique(room: Room, i: nat)
    requires DistinctUrls(room)
    requires i < |room|
    ensures Lookup(room, room[i].0) == Some(room[i].1)
  {
    if i > 0 {
      assert room[0].0 != room[i].0;
      LookupUnique(room[1..], i - 1);
    }
  }

  /** A limit of zero evicts everything, including the entry just stored. */
  lemma ZeroLimitKeepsNothing(c: Cache, chat: Chat, url: Url, e: Entry)
    ensures CacheTranscript(c, true, 0, chat, url, e).cache.rooms[chat] == []
    ensures LastTranscript(CacheTranscript(c, true, 0, chat, url, e).cache, chat).None?
  {
  }

  /** The universal plugin's fixed limit. */
  const UniversalMaxCachedPerRoom := 5

  /** The universal `_cache_transcript`: the same store, always enabled, five
      entries per chat. */
  function UniversalCacheTranscript(c: Cache, chat: Chat, url: Url, e: Entry): (s: Cache)
    ensures chat in s.rooms && |s.rooms[chat]| <= UniversalMaxCachedPerRoom
    ensures chat in s.last && s.last[chat] == url
    ensures NewestOf(s.rooms[chat], Put(RoomOf(c, chat), url, e))
    ensures forall ch :: ch in s.rooms <==> ch in c.rooms || ch == chat
    ensures forall ch :: ch in s.last <==> ch in c.last || ch == chat
    ensures forall other :: other != chat && other in c.rooms ==> other in s.rooms && s.rooms[other] == c.rooms[other]
    ensures forall other :: other != chat && other in c.last ==> other in s.last && s.last[other] == c.last[other]
    ensures Valid(c) ==> Valid(s)
  {
    var stored := CacheTranscript(c, true, UniversalMaxCachedPerRoom, chat, url, e);
    assert |stored.cache.rooms[chat]| <= UniversalMaxCachedPerRoom;
    stored.cache
  }
}
