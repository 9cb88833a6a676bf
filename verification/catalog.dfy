/** Catalog ids: how the manifest derives one catalog id per registered
    channel, how the catalog handler parses an id back with the pattern
    `^youtube-(.+?)-([A-Za-z0-9_-]+)$` and looks the channel up again, and
    the handler that then fetches that channel's feed. */
module Catalog {
  import opened Wrappers
  import opened Text
  import opened Registry
  import opened Feed

  const CatalogPrefix: string := "youtube-"

  /** The catalog id advertised for channel `channelId` of group `key`:
      the prefix, the lowered key, a `-` and the channel id, so the id
      takes apart at fixed positions. */
  function CatalogId(key: string, channelId: string): (r: string)
    ensures |r| == |CatalogPrefix| + |key| + 1 + |channelId|
    ensures r[..|CatalogPrefix|] == CatalogPrefix
    ensures r[|CatalogPrefix|..|CatalogPrefix| + |key|] == Lower(key)
    ensures r[|CatalogPrefix| + |key|] == '-'
    ensures r[|CatalogPrefix| + |key| + 1..] == channelId
  {
    CatalogPrefix + Lower(key) + "-" + channelId
  }

  /** One advertised catalog of the manifest. */
  datatype CatalogEntry = CatalogEntry(kind: string, id: string, name: string)

  /** A channel's catalog: a series catalog carrying the channel's catalog
      id, named after the group key as written (not lowered) and the
      channel's name. */
  function EntryFor(key: string, ch: ChannelRef): (e: CatalogEntry)
    ensures e.kind == "series" && e.id == CatalogId(key, ch.id)
    ensures |e.name| == 9 + |key| + 3 + |ch.name|
    ensures e.name[..9] == "YouTube: " && e.name[9..9 + |key|] == key
    ensures e.name[9 + |key|..9 + |key| + 3] == " \U{2013} "
    ensures e.name[9 + |key| + 3..] == ch.name
  {
    CatalogEntry("series", CatalogId(key, ch.id), "YouTube: " + key + " \U{2013} " + ch.name)
  }

  function GroupEntries(g: Group): seq<CatalogEntry> {
    seq(|g.channels|, c requires 0 <= c < |g.channels| => EntryFor(g.key, g.channels[c]))
  }

  /** Number of channels in all groups together. */
  function ChannelCount(reg: seq<Group>): nat {
    if |reg| == 0 then 0 else |reg[0].channels| + ChannelCount(reg[1..])
  }

  /** The manifest's catalog list: the entries of every group, groups in
      registry order and channels in list order. */
  function ManifestCatalogs(reg: seq<Group>): (r: seq<CatalogEntry>)
    ensures |r| == ChannelCount(reg)
  {
    if |reg| == 0 then [] else GroupEntries(reg[0]) + ManifestCatalogs(reg[1..])
  }

  /** Channel `c` of group `g` is advertised at position
      `ChannelCount(reg[..g]) + c`: one entry per channel, in registry order. */
  lemma {:induction false} ManifestCatalogAt(reg: seq<Group>, g: nat, c: nat)
    requires g < |reg| && c < |reg[g].channels|
    ensures ChannelCount(reg[..g]) + c < |ManifestCatalogs(reg)|
    ensures ManifestCatalogs(reg)[ChannelCount(reg[..g]) + c] == EntryFor(reg[g].key, reg[g].channels[c])
    decreases g
  {
    if g > 0 {
      var tail := reg[1..];
      ManifestCatalogAt(tail, g - 1, c);
      assert reg[..g][1..] == tail[..g - 1];
      assert ChannelCount(reg[..g]) == |reg[0].channels| + ChannelCount(tail[..g - 1]);
      ChannelCountPrefix(reg, g);
    } else {
      assert reg[..g] == [];
    }
  }

  lemma {:induction false} ChannelCountPrefix(reg: seq<Group>, g: nat)
    requires g <= |reg|
    ensures ChannelCount(reg[..g]) <= ChannelCount(reg)
    decreases g
  {
    if g > 0 {
      assert reg[..g][1..] == reg[1..][..g - 1];
      ChannelCountPrefix(reg[1..], g - 1);
    }
  }

  /** Every advertised entry belongs to some registered channel. */
  lemma {:induction false} ManifestCatalogOrigin(reg: seq<Group>, k: nat) returns (g: nat, c: nat)
    requires k < |ManifestCatalogs(reg)|
    ensures g < |reg| && c < |reg[g].channels|
    ensures k == ChannelCount(reg[..g]) + c
    ensures ManifestCatalogs(reg)[k] == EntryFor(reg[g].key, reg[g].channels[c])
    decreases |reg|
  {
    if k < |reg[0].channels| {
      g, c := 0, k;
      assert reg[..0] == [];
    } else {
      var g', c' := ManifestCatalogOrigin(reg[1..], k - |reg[0].channels|);
      g, c := g' + 1, c';
      assert reg[..g][1..] == reg[1..][..g'];
    }
  }

  /** The two parts captured by the catalog-id pattern. */
  datatype CatalogIdParts = CatalogIdParts(group: string, channel: string)

  predicate NoLineTerminator(s: string) {
    forall k :: 0 <= k < |s| ==> !IsLineTerminator(s[k])
  }

  /** `rest` (an id without its `youtube-` prefix) reads as `group`, a `-`
      and `channel`, with `group` accepted by `(.+?)` and `channel` by
      `([A-Za-z0-9_-]+)`. */
  predicate SplitsAs(rest: string, group: string, channel: string) {
    && 0 < |group| < |rest|
    && group == rest[..|group|]
    && rest[|group|] == '-'
    && channel == rest[|group| + 1..]
    && NoLineTerminator(group)
    && ValidChannelId(channel)
  }

  /** The whole pattern matches `id` with these captures. */
  predicate PatternMatches(id: string, group: string, channel: string) {
    |id| >= |CatalogPrefix| && id[..|CatalogPrefix|] == CatalogPrefix
    && SplitsAs(id[|CatalogPrefix|..], group, channel)
  }

  /** The pattern matches exactly the ids assembled from its parts. */
  lemma PatternMatchesIff(id: string, group: string, channel: string)
    ensures PatternMatches(id, group, channel) <==>
      && id == CatalogPrefix + group + "-" + channel
      && |group| > 0 && NoLineTerminator(group) && ValidChannelId(channel)
  {
    if id == CatalogPrefix + group + "-" + channel {
      var rest := id[|CatalogPrefix|..];
      assert rest == group + "-" + channel;
      assert rest[..|group|] == group;
      assert rest[|group| + 1..] == channel;
    }
    if PatternMatches(id, group, channel) {
      var rest := id[|CatalogPrefix|..];
      assert rest == rest[..|group|] + [rest[|group|]] + rest[|group| + 1..];
      assert id == id[..|CatalogPrefix|] + rest;
    }
  }

  /** The lazy group `(.+?)`: tries group lengths k, k+1, ... and stops at
      the first length after which `-` and a valid channel id end the
      string; it cannot extend the group past a line terminator. */
  function LazyGroupScan(rest: string, k: nat): (r: Option<CatalogIdParts>)
    requires 1 <= k <= |rest| + 1 && NoLineTerminator(rest[..k - 1])
    ensures r.Some? ==> SplitsAs(rest, r.value.group, r.value.channel) && k <= |r.value.group|
    ensures r.Some? ==> forall g, c :: SplitsAs(rest, g, c) && k <= |g| ==> |r.value.group| <= |g|
    ensures r.None? ==> forall g, c :: SplitsAs(rest, g, c) ==> |g| < k
    decreases |rest| - k
  {
    if k >= |rest| then None
    else if IsLineTerminator(rest[k - 1]) then None
    else if rest[k] == '-' && ValidChannelId(rest[k + 1..]) then
      Some(CatalogIdParts(rest[..k], rest[k + 1..]))
    else LazyGroupScan(rest, k + 1)
  }

  /** `id.match(/^youtube-(.+?)-([A-Za-z0-9_-]+)$/)`: the captures of the
      match with the shortest group, or None when the pattern does not
      match at all. */
  function ParseCatalogId(id: string): (r: Option<CatalogIdParts>)
    ensures r.Some? ==> PatternMatches(id, r.value.group, r.value.channel)
    ensures r.Some? ==> forall g, c :: PatternMatches(id, g, c) ==> |r.value.group| <= |g|
    ensures r.None? ==> forall g, c :: !PatternMatches(id, g, c)
  {
    if |id| < |CatalogPrefix| || id[..|CatalogPrefix|] != CatalogPrefix then None
    else LazyGroupScan(id[|CatalogPrefix|..], 1)
  }

  /** `Object.keys(reg).find(g => g.toLowerCase() === group)`, as an index. */
  function FindGroup(reg: seq<Group>, group: string, from: nat): (r: Option<nat>)
    ensures r.Some? ==> from <= r.value < |reg| && Lower(reg[r.value].key) == group
    ensures r.Some? ==> forall g :: from <= g < r.value ==> Lower(reg[g].key) != group
    ensures r.None? ==> forall g :: from <= g < |reg| ==> Lower(reg[g].key) != group
    decreases |reg| - from
  {
    if from >= |reg| then None
    else if Lower(reg[from].key) == group then Some(from)
    else FindGroup(reg, group, from + 1)
  }

  /** `chans.find(c => \`youtube-${lowered}-${c.id}\` === id)`, as an index. */
  function FindChannel(chans: seq<ChannelRef>, lowered: string, id: string, from: nat): (r: Option<nat>)
    ensures r.Some? ==> from <= r.value < |chans| && CatalogPrefix + lowered + "-" + chans[r.value].id == id
    ensures r.Some? ==> forall c :: from <= c < r.value ==> CatalogPrefix + lowered + "-" + chans[c].id != id
    ensures r.None? ==> forall c :: from <= c < |chans| ==> CatalogPrefix + lowered + "-" + chans[c].id != id
    decreases |chans| - from
  {
    if from >= |chans| then None
    else if CatalogPrefix + lowered + "-" + chans[from].id == id then Some(from)
    else FindChannel(chans, lowered, id, from + 1)
  }

  /** The catalog handler's lookup: parse the id, find the group key that
      lowers to the captured group, then the channel of that group whose
      rebuilt id (from the lowered capture) is the id itself. Whatever it
      returns is a registered channel whose advertised id is `id`. */
  function ResolveCatalog(reg: seq<Group>, id: string): (r: Option<ChannelRef>)
    ensures r.Some? ==>
      exists g, c :: 0 <= g < |reg| && 0 <= c < |reg[g].channels|
                     && r.value == reg[g].channels[c] && id == CatalogId(reg[g].key, r.value.id)
  {
    match ParseCatalogId(id)
    case None => None
    case Some(parts) =>
      match FindGroup(reg, parts.group, 0)
      case None => None
      case Some(g) =>
        match FindChannel(reg[g].channels, Lower(parts.group), id, 0)
        case None => None
        case Some(c) =>
          LowerIdempotent(reg[g].key);
          Some(reg[g].channels[c])
  }

  /** In a valid registry the lazy group of an advertised id is exactly the
      lowered group key: the key holds no `-`, so no shorter group can be
      followed by `-`. */
  lemma ParseAdvertisedId(key: string, channelId: string)
    requires ValidKey(key) && ValidChannelId(channelId)
    ensures ParseCatalogId(CatalogId(key, channelId)) == Some(CatalogIdParts(Lower(key), channelId))
  {
    var id := CatalogId(key, channelId);
    var lowered := Lower(key);
    assert NoLineTerminator(lowered) by {
      forall k | 0 <= k < |lowered| ensures !IsLineTerminator(lowered[k]) {
        assert IsKeyChar(key[k]);
      }
    }
    PatternMatchesIff(id, lowered, channelId);
    var r := ParseCatalogId(id);
    var p := r.value;
    assert |p.group| <= |lowered|;
    var rest := id[|CatalogPrefix|..];
    assert rest == lowered + "-" + channelId;
  }

  /** Round trip: in a valid registry, resolving the id advertised for a
      channel returns exactly that channel. */
  lemma ResolveAdvertised(reg: seq<Group>, g: nat, c: nat)
    requires ValidRegistry(reg)
    requires g < |reg| && c < |reg[g].channels|
    ensures ResolveCatalog(reg, CatalogId(reg[g].key, reg[g].channels[c].id)) == Some(reg[g].channels[c])
  {
    var key := reg[g].key;
    var ch := reg[g].channels[c];
    var id := CatalogId(key, ch.id);
    ParseAdvertisedId(key, ch.id);
    var found := FindGroup(reg, Lower(key), 0);
    assert found == Some(g);
    LowerIdempotent(key);
    var pick := FindChannel(reg[g].channels, Lower(Lower(key)), id, 0);
    assert pick.Some?;
    assert pick == Some(c) by {
      var d := pick.value;
      assert CatalogPrefix + Lower(key) + "-" + reg[g].channels[d].id == id;
      assert reg[g].channels[d].id == ch.id by {
        assert id[|CatalogPrefix| + |Lower(key)| + 1..] == ch.id;
        assert (CatalogPrefix + Lower(key) + "-" + reg[g].channels[d].id)[|CatalogPrefix| + |Lower(key)| + 1..]
               == reg[g].channels[d].id;
      }
    }
  }

  /** In a valid registry the handler recognises exactly the advertised
      catalog ids. */
  lemma ResolveIffAdvertised(reg: seq<Group>, id: string)
    requires ValidRegistry(reg)
    ensures ResolveCatalog(reg, id).Some? <==>
      exists k :: 0 <= k < |ManifestCatalogs(reg)| && ManifestCatalogs(reg)[k].id == id
  {
    var cats := ManifestCatalogs(reg);
    var r := ResolveCatalog(reg, id);
    if r.Some? {
      var g, c :| 0 <= g < |reg| && 0 <= c < |reg[g].channels|
                  && r.value == reg[g].channels[c] && id == CatalogId(reg[g].key, r.value.id);
      ManifestCatalogAt(reg, g, c);
      assert cats[ChannelCount(reg[..g]) + c].id == id;
    }
    if k :| 0 <= k < |cats| && cats[k].id == id {
      var g, c := ManifestCatalogOrigin(reg, k);
      ResolveAdvertised(reg, g, c);
    }
  }

  /** Group matching is case-sensitive on the request side: only the key
      is lowered, so a captured group with an upper-case letter never
      names a group, whatever the registry. */
  lemma ResolveRejectsUpperCaseGroup(reg: seq<Group>, id: string, k: nat)
    requires ParseCatalogId(id).Some?
    requires k < |ParseCatalogId(id).value.group|
    requires IsUpperAscii(ParseCatalogId(id).value.group[k])
    ensures ResolveCatalog(reg, id).None?
  {
  }

  /** An id without the `youtube-` prefix is rejected by the pattern. */
  lemma ResolveRejectsForeignId()
    ensures ResolveCatalog(ChannelGroups, "not-a-catalog").None?
  {
    assert "not-a-catalog"[..|CatalogPrefix|] != CatalogPrefix by {
      assert "not-a-catalog"[0] != CatalogPrefix[0];
    }
  }

  /** The advertised id with its group spelled as the key is written
      (`Tech` rather than `tech`) resolves to nothing. */
  lemma ResolveRejectsKeySpelling()
    ensures ResolveCatalog(ChannelGroups, "youtube-Tech-UCBJycsmduvYEL83R_U4JriQ").None?
  {
    var id := "youtube-Tech-UCBJycsmduvYEL83R_U4JriQ";
    var parsed := ParseCatalogId(id);
    if parsed.Some? {
      var group := parsed.value.group;
      var rest := id[|CatalogPrefix|..];
      assert rest[0] == id[8] == 'T';
      assert group[0] == rest[..|group|][0] == rest[0];
      ResolveRejectsUpperCaseGroup(ChannelGroups, id, 0);
    }
  }

  /** The one outbound feed request a catalog request may issue. */
  datatype FeedRequest = FeedRequest(channelId: string, maxResults: int)

  /** The feed request the catalog handler issues for `id`: none when the
      id does not resolve, else that channel's feed with the per-channel
      limit. */
  function CatalogFeedRequest(reg: seq<Group>, id: string): (r: Option<FeedRequest>)
    ensures r.None? <==> ResolveCatalog(reg, id).None?
    ensures r.Some? ==> r.value.maxResults == VideosPerChannel
    ensures r.Some? ==>
      exists g, c :: 0 <= g < |reg| && 0 <= c < |reg[g].channels|
                     && reg[g].channels[c].id == r.value.channelId
                     && id == CatalogId(reg[g].key, r.value.channelId)
  {
    match ResolveCatalog(reg, id)
    case None => None
    case Some(ch) => Some(FeedRequest(ch.id, VideosPerChannel))
  }

  /** The catalog handler's `metas`, given the response to its feed request
      (ignored when it issues none). */
  function CatalogHandler(reg: seq<Group>, id: string, response: FeedResponse): (metas: seq<VideoSummary>)
    ensures CatalogFeedRequest(reg, id).None? ==> metas == []
    ensures response.NotOk? ==> metas == []
    ensures |metas| <= VideosPerChannel
    ensures forall k :: 0 <= k < |metas| ==> SummaryShape(metas[k])
  {
    match CatalogFeedRequest(reg, id)
    case None => []
    case Some(request) => FeedMetas(response, request.maxResults)
  }

  /** A request for an advertised catalog fetches exactly that channel's
      feed, and answers with the feed's items. */
  lemma CatalogHandlerAdvertised(reg: seq<Group>, g: nat, c: nat, response: FeedResponse)
    requires ValidRegistry(reg)
    requires g < |reg| && c < |reg[g].channels|
    ensures var id := CatalogId(reg[g].key, reg[g].channels[c].id);
      && CatalogFeedRequest(reg, id) == Some(FeedRequest(reg[g].channels[c].id, VideosPerChannel))
      && CatalogHandler(reg, id, response) == FeedMetas(response, VideosPerChannel)
  {
    ResolveAdvertised(reg, g, c);
  }
}
