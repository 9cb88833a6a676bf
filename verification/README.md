# YouTube RSS addon — a Dafny model

This project models the core of a small Stremio addon, `index.js`. The addon
serves one catalog per YouTube channel, built from a fixed registry of channel
groups. It also answers meta and stream requests for the videos those catalogs
list. The model covers four parts of that file:

- **Catalog ids.** The manifest advertises one catalog per channel, with id
  `youtube-<lowered group>-<channel id>`. The catalog handler resolves an id
  back to a channel. Three steps model it: the anchored regular expression
  `^youtube-(.+?)-([A-Za-z0-9_-]+)$` with its lazy group, the case-folding key
  lookup, and the channel lookup. The round trip is proved: in a registry with
  valid, distinct keys and ids, a requested id resolves if and only if it is
  advertised, and it then resolves to exactly that channel. The configured
  registry is proved to satisfy those conditions.
- **Feed extraction.** Given the HTTP response, the fetcher does the following:
  - a non-ok status gives no items;
  - otherwise the body is split on `<entry>`, the header piece is dropped, and
    at most `min(maxResults, 50)` chunks are taken, following the slice rule;
  - three patterns are applied to each chunk (video id, title, thumbnail);
  - chunks without a video id are skipped;
  - every other chunk gives an item.

  The patterns are modelled with their real matching semantics: the leftmost
  match, greedy `[^<]+` runs, and the backtracking of `[^>]+` that makes the
  last `url="` before the next `>` win. The loop is also modelled as a method
  and proved equal to the functional definition.
- **Meta records.** The handler removes the first `yt:` from the item id. The
  oEmbed lookup's outcome is an input. The record is built either from that
  data or from the placeholder text.
- **Stream links.** The handler takes the second `:`-separated segment of the
  id and returns one "Open on YouTube" link to its watch page. When there is
  no `:`, the link ends in `undefined`.

A last module connects the handlers. Every item a feed emits carries an id
from which the meta handler recovers the video id. The stream handler links
that item to the video's watch page, provided the video id has no `:`.

Modules: `Wrappers` (Option), `Text` (JavaScript string operations), `Registry`
(the channel groups and their validity), `Catalog`, `Feed`, `Meta`, `Stream`,
`Addon`.

Network access, the request header, JSON decoding and the SDK are not modelled.
Each handler instead takes the outcome of its outbound request as a parameter:
`FeedResponse` for the upload feed and `Option<OEmbed>` for the embed lookup.

## Model

| member | source | states |
|---|---|---|
| Registry.ChannelGroupsValid | index.js:8-23 | The configured groups have non-empty keys without `-` or line terminators, distinct after lowering, and channel ids that are non-empty runs of `[A-Za-z0-9_-]`, distinct within their group, so every advertised id can round-trip |
| Catalog.CatalogId | index.js:45 | An advertised id is `youtube-`, the lowered key, `-` and the channel id, each at a fixed position, so it can be taken apart again |
| Catalog.EntryFor | index.js:43-47 | A channel's catalog is a series catalog with that channel's id, named `YouTube: ` + the key as written + ` – ` + the channel name |
| Catalog.ManifestCatalogs | index.js:40-49 | The manifest lists exactly one catalog per registered channel |
| Catalog.ManifestCatalogAt | index.js:42-48 | Channel `c` of group `g` is advertised at position (channels of earlier groups) + `c`, as a series catalog with id `youtube-` + lowered key + `-` + channel id, named after the group and channel |
| Catalog.ManifestCatalogOrigin | index.js:42-48 | Conversely, every advertised catalog is the entry of some group's channel, at that group-ordered position |
| Catalog.PatternMatchesIff | index.js:93 | The catalog-id pattern matches with captures (group, channel) exactly when the id is `youtube-` + group + `-` + channel, the group is non-empty without line terminators, and the channel is a non-empty run of `[A-Za-z0-9_-]` |
| Catalog.LazyGroupScan | index.js:93 | Scanning group lengths upward from `k` finds the shortest split of length at least `k` whose remainder is a valid channel, and fails only when no split of length at least `k` exists |
| Catalog.ParseCatalogId | index.js:93-94 | The parse returns the match with the shortest group (lazy `+?`), and returns None exactly when the pattern cannot match |
| Catalog.FindGroup | index.js:96 | Returns the first group whose lowered key equals the captured group, or None when no key lowers to it |
| Catalog.FindChannel | index.js:97 | Returns the first channel of the group whose rebuilt id equals the requested id, or None when none does |
| Catalog.ResolveCatalog | index.js:93-98 | A resolved channel is a registered channel whose advertised id is the requested id |
| Catalog.ParseAdvertisedId | index.js:93-95 | For a valid key and channel id, the advertised id parses to (lowered key, channel id): the lazy group stops at the key's end |
| Catalog.ResolveAdvertised | index.js:93-98 | Round trip: in a valid registry, the id advertised for a channel resolves to exactly that channel |
| Catalog.ResolveIffAdvertised | index.js:93-98 | In a valid registry, an id resolves if and only if it is among the advertised catalog ids |
| Catalog.ResolveRejectsUpperCaseGroup | index.js:96 | A captured group holding an upper-case letter never names a group, because only the registry keys are lowered |
| Catalog.ResolveRejectsForeignId | index.js:93-94 | `not-a-catalog` resolves to nothing |
| Catalog.ResolveRejectsKeySpelling | index.js:96-98 | The id spelled with the key's original case (`youtube-Tech-…`) resolves to nothing |
| Catalog.CatalogFeedRequest | index.js:98-100 | A feed request is issued exactly when the id resolves; it names the channel the id advertises and asks for 20 videos |
| Catalog.CatalogHandler | index.js:92-102 | The catalog answer is empty for an unresolved id or a non-ok feed response, and otherwise has at most 20 items, each of the fetcher's item shape |
| Catalog.CatalogHandlerAdvertised | index.js:100-101 | An advertised catalog fetches its own channel's feed with the limit 20 and answers with the feed's items |
| Text.Split | index.js:64 | `split` with a non-empty separator gives at least one piece and no piece holding the separator; it gives the whole string when the separator is absent, and at least two pieces when it is present |
| Text.JoinSplit | index.js:64 | Joining the pieces with the separator gives back the split string |
| Text.SplitAtFirst | index.js:64 | A separator-free head, the separator and a remainder split into the head followed by the pieces of the remainder |
| Text.IndexOfFirstChar | index.js:129 | The first occurrence of a character comes right after a prefix that lacks it |
| Text.ReplaceFirst | index.js:106 | `replace` with a string pattern and a `$`-free replacement substitutes at the leftmost occurrence only, and leaves a string without the pattern unchanged |
| Text.Lower | index.js:45 | Lowering keeps the length and lowers each character on its own: A-Z shift to a-z, everything else is kept |
| Text.LowerIdempotent | index.js:97 | Lowering the already lowered group again changes nothing |
| Feed.RunEnd | index.js:68-70 | A greedy `[^x]+` run ends at the first `x` or at the end of the text |
| Feed.DelimitedMatchAt | index.js:68-70 | At a fixed position, `open([^x]+)close` with `close` starting with `x` has at most one capture (the maximal run), and the function returns it |
| Feed.FirstTagged | index.js:68-69 | Searching from a position before which nothing matches yields the leftmost match's capture, or None when the pattern matches nowhere |
| Feed.VideoIdOf | index.js:68 | The video id is the capture of the leftmost `<yt:videoId>…</yt:videoId>` match, or None when there is none |
| Feed.TitleOf | index.js:69 | The title is the capture of the leftmost `<title>…</title>` match, or None when there is none |
| Feed.LastUrlAttr | index.js:70 | Returns a `url="…"` attribute in the window together with the largest such start, i.e. the one greedy backtracking settles on; None when the window has none |
| Feed.ThumbnailMatchAt | index.js:70 | At a `media:thumbnail` position the capture is that of the last `url="` before the next `>`, and None exactly when no such match exists |
| Feed.ThumbnailWindow | index.js:70 | A thumbnail match at position `i` is exactly a `url="…"` attribute starting after the tag and no later than the first `>` |
| Feed.FirstThumbnail | index.js:70 | Searching from a position before which nothing matches yields the leftmost thumbnail match, or None when there is none |
| Feed.ThumbnailOf | index.js:70 | The thumbnail is the capture of the leftmost thumbnail match, or None |
| Feed.SummaryOf | index.js:71-79 | An entry yields an item exactly when it has a video id |
| Feed.SummaryOfShape | index.js:72-79 | The item has id `yt:` + video id, name the title or else the video id, poster the thumbnail, an empty description, type series and landscape shape |
| Feed.MetasOf | index.js:66-81 | The items are no more than the entries, and all have the item shape |
| Feed.MetasOfAppend | index.js:67-80 | The items of two runs of entries, concatenated, are the items of the concatenated run |
| Feed.MetasOfPresent | index.js:67-80 | The items are the present per-entry results, in order |
| Feed.MetasOfSelects | index.js:67-80 | The items are the per-entry results at strictly increasing entry positions, and every entry with a video id contributes |
| Feed.MetasOfComplete | index.js:67-80 | When every entry has a video id, item `j` is entry `j`'s |
| Feed.EntryChunks | index.js:64 | The chunks after the header hold no `<entry>`, and there are none exactly when the body holds no `<entry>` |
| Feed.EntryChunksJoin | index.js:64 | The header piece and the chunks, joined with `<entry>`, give back the body |
| Feed.SliceEnd | index.js:67 | `slice(0, end)` keeps `min(end, len)` elements for a non-negative `end`, and for a negative `end` all but the last `-end` (none when `-end` reaches the length) |
| Feed.ConsideredEntries | index.js:64-67 | At most `min(maxResults, 50)` chunks are considered for a non-negative limit, and as many as that allows; they form a prefix of the chunks after the header |
| Feed.NegativeLimitDropsTail | index.js:67 | A negative limit drops only the last `-maxResults` chunks, so more than 50 chunks can be considered |
| Feed.FeedMetas | index.js:59-81 | A non-ok response gives no items. Otherwise there are at most `min(maxResults, 50)` items for a non-negative limit, never more than the entry chunks, and each has the item shape |
| Feed.FetchUploads | index.js:59-81 | The fetcher's loop returns exactly the functional result |
| Feed.FirstEntryTagAfterHeader | index.js:64 | In a body whose header lacks `<entry>`, the first `<entry>` begins right after the header |
| Feed.HeaderIgnored | index.js:64 | The header before the first `<entry>` has no influence on the items |
| Meta.ItemVideoId | index.js:106 | An id without `yt:` is used unchanged; otherwise exactly the leftmost `yt:` is cut out and the text around it is kept |
| Meta.ItemVideoIdOfItem | index.js:106 | For the id `yt:` + v, the video id is v |
| Meta.MetaFor | index.js:105-124 | The record keeps the id, type series, landscape shape and one episode (season 1, episode 1) with the item's id. Without oEmbed data it has placeholder names and no poster, background or description. With data, the name and episode title are the oEmbed title, poster and background are the thumbnail, and the description credits the author |
| Meta.FallbackNamesItem | index.js:108-114 | The fallback record for `yt:` + v is named `YouTube Video v`, with its episode titled `Video v` |
| Stream.SecondSegment | index.js:129 | The second segment is missing exactly when the id has no `:`, and it never contains `:` |
| Stream.SecondSegmentOf | index.js:129 | For `pre:v…` with no `:` in `pre` or `v`, where the rest is empty or starts with `:`, the second segment is `v` |
| Stream.FirstPiece | index.js:129 | The first `:`-separated piece of `v` followed by nothing or by a `:`-led rest is `v` |
| Stream.StreamsFor | index.js:128-133 | There is one link, titled "Open on YouTube", to a watch URL. Without a `:` in the id the URL ends in `undefined`; otherwise the part after `watch?v=` holds no `:` |
| Stream.StreamForSegments | index.js:129-131 | For any id `pre:v…` with no `:` in `pre` or `v`, where the rest is empty or starts with `:`, the link is the watch page of `v`, i.e. of `id.split(":")[1]` |
| Stream.StreamForItem | index.js:129-131 | For the item `yt:` + v with no `:` in v, the link is the watch page of v |
| Addon.ItemRoundTrip | index.js:73 | An emitted item's id gives back its video id in the meta handler (which names it in the fallback record) and, when the video id has no `:`, links to that video's watch page |
| Addon.FeedItemsRoundTrip | index.js:72-73 | Every item of a fetched feed round-trips through the meta and stream handlers |

## Left out

- Network I/O: the feed and oEmbed requests, their `User-Agent` header, and the URLs built with `encodeURIComponent`. A handler's outbound request is replaced by its outcome as a parameter. `Catalog.CatalogFeedRequest` states which channel and limit are requested.
- Exceptions: `fetch` and `r.json()` can throw, and `index.js` catches neither, so the catalog and meta handlers reject on a transport failure or a malformed oEmbed body. The handlers are meant to degrade to an empty or placeholder answer rather than fail, but an exception escapes them; this model follows the code and models only the ok/non-ok outcomes and the present/absent oEmbed result.
- The oEmbed JSON is reduced to the three string fields the meta handler reads. Missing or non-string fields (which would give `undefined` in the record) are not modelled.
- The remaining manifest fields (id, version, name, description, logo, resources, types, id prefixes) are constants with no behaviour. The SDK's routing, `serveHTTP`, the port and the console logging are left out too.
- Text.ReplaceFirst: requires a replacement without `$`, because JavaScript expands `$&`, `$$`, `` $` `` and `$'` in it; the addon's only call passes the empty string.
- Text.Lower: models `toLowerCase` on ASCII letters only; full Unicode case mapping is not modelled. The configured keys are ASCII.
- Feed.FeedMetas: the bound of at most `min(maxResults, 50)` items holds only for a non-negative limit. With a negative limit, JavaScript's slice keeps all but the last `-maxResults` chunks (see `Feed.NegativeLimitDropsTail`), so a negative limit is not capped at 50 items. The handlers always pass 20.
- Catalog.ResolveCatalog: the ensures states soundness only. Completeness needs a valid registry and is stated in `Catalog.ResolveAdvertised` and `Catalog.ResolveIffAdvertised`. A registry key spelled `undefined` would also be found by the `CHANNEL_GROUPS[undefined]` lookup after a failed key search. That quirk is not modelled, because the configured registry has no such key.
- Async sequencing and concurrent requests are not modelled; every handler is a function of its inputs.
