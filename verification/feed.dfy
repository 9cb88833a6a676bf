/** The pure part of the uploads-feed fetcher: the HTTP outcome is an
    input, the body is cut into `<entry>` chunks, and three fixed regular
    expressions pull the video id, title and thumbnail out of each chunk. */
module Feed {
  import opened Wrappers
  import opened Text
  import opened Registry

  /** The feed request's outcome: a non-2xx status, or the body text. */
  datatype FeedResponse = NotOk(status: int) | Ok(body: string)

  /** One catalog item built from a feed entry. */
  datatype VideoSummary = VideoSummary(
    id: string,
    kind: string,
    name: string,
    poster: Option<string>,
    description: string,
    posterShape: string)

  const EntryTag: string := "<entry>"
  const VideoIdOpen: string := "<yt:videoId>"
  const VideoIdClose: string := "</yt:videoId>"
  const TitleOpen: string := "<title>"
  const TitleClose: string := "</title>"
  const ThumbnailTag: string := "media:thumbnail"
  const UrlAttr: string := "url=\""
  const ItemPrefix: string := "yt:"

  /** The end of the run of characters other than `stop` that starts at
      `s`: the first index at or after `s` holding `stop`, or `|e|`. */
  function RunEnd(e: string, s: nat, stop: char): (r: nat)
    requires s <= |e|
    ensures s <= r <= |e|
    ensures forall k :: s <= k < r ==> e[k] != stop
    ensures r < |e| ==> e[r] == stop
    decreases |e| - s
  {
    if s == |e| || e[s] == stop then s else RunEnd(e, s + 1, stop)
  }

  /** Any run of non-`stop` characters from `s` that is followed by `stop`
      is the maximal run. */
  lemma RunEndIsStop(e: string, s: nat, stop: char, n: nat)
    requires s + n < |e| && e[s + n] == stop
    requires forall k :: s <= k < s + n ==> e[k] != stop
    ensures RunEnd(e, s, stop) == s + n
  {
  }

  // ---------------------------------------------------------------------
  // `open([^X]+)close` where `close` begins with the excluded character X:
  // the shape of all three capture groups.

  /** The text at `i` is `open`, then a non-empty capture `v` free of
      `stop`, then `close`. */
  predicate DelimitedAt(e: string, i: int, open: string, v: string, close: string, stop: char) {
    OccursAt(e, open + v + close, i) && |v| > 0 && Lacks(v, stop)
  }

  /** A piece of an occurrence is the matching piece of the text. */
  lemma OccursSlice(e: string, pat: string, i: nat, a: nat, b: nat)
    requires OccursAt(e, pat, i) && a <= b <= |pat|
    ensures e[i + a..i + b] == pat[a..b]
  {
    var w := e[i..i + |pat|];
    forall k | 0 <= k < b - a ensures e[i + a..i + b][k] == pat[a..b][k] {
      assert e[i + a..i + b][k] == e[i + a + k] == w[a + k];
    }
  }

  /** Adjacent slices concatenate to the slice they cover. */
  lemma SliceConcat(e: string, a: nat, b: nat, c: nat, d: nat)
    requires a <= b <= c <= d <= |e|
    ensures e[a..b] + e[b..c] + e[c..d] == e[a..d]
  {
  }

  /** Any such capture is the maximal `stop`-free run after `open`. */
  lemma DelimitedIsRun(e: string, i: nat, open: string, v: string, close: string, stop: char)
    requires |close| > 0 && close[0] == stop
    requires DelimitedAt(e, i, open, v, close, stop)
    ensures OccursAt(e, open, i)
    ensures RunEnd(e, i + |open|, stop) == i + |open| + |v|
    ensures v == e[i + |open|..i + |open| + |v|]
    ensures OccursAt(e, close, i + |open| + |v|)
  {
    var s := i + |open|;
    var whole := open + v + close;
    OccursSlice(e, whole, i, 0, |open|);
    assert whole[0..|open|] == open;
    OccursSlice(e, whole, i, |open|, |open| + |v|);
    assert whole[|open|..|open| + |v|] == v;
    OccursSlice(e, whole, i, |open| + |v|, |whole|);
    assert whole[|open| + |v|..|whole|] == close;
    assert e[s + |v|] == e[s + |v|..s + |v| + |close|][0] == close[0];
    forall k | s <= k < s + |v| ensures e[k] != stop {
      assert e[k] == e[s..s + |v|][k - s] == v[k - s];
    }
    RunEndIsStop(e, s, stop, |v|);
  }

  /** One match attempt at `i`: the greedy `[^stop]+` can only be followed
      by `close` when it has taken the whole `stop`-free run. */
  function DelimitedMatchAt(e: string, i: nat, open: string, close: string, stop: char): (r: Option<string>)
    requires |close| > 0 && close[0] == stop
    ensures r.Some? ==> DelimitedAt(e, i, open, r.value, close, stop)
    ensures forall v :: DelimitedAt(e, i, open, v, close, stop) ==> r == Some(v)
  {
    if OccursAt(e, open, i) then
      var s := i + |open|;
      var j := RunEnd(e, s, stop);
      if s < j && OccursAt(e, close, j) then
        DelimitedFound(e, i, open, close, stop);
        Some(e[s..j])
      else
        DelimitedMissing(e, i, open, close, stop);
        None
    else
      DelimitedMissing(e, i, open, close, stop);
      None
  }

  lemma DelimitedFound(e: string, i: nat, open: string, close: string, stop: char)
    requires |close| > 0 && close[0] == stop
    requires OccursAt(e, open, i)
    requires i + |open| < RunEnd(e, i + |open|, stop)
    requires OccursAt(e, close, RunEnd(e, i + |open|, stop))
    ensures DelimitedAt(e, i, open, e[i + |open|..RunEnd(e, i + |open|, stop)], close, stop)
    ensures forall v :: DelimitedAt(e, i, open, v, close, stop) ==>
      v == e[i + |open|..RunEnd(e, i + |open|, stop)]
  {
    var s := i + |open|;
    var j := RunEnd(e, s, stop);
    RunIsDelimited(e, i, s, j, open, close, stop);
    forall w | DelimitedAt(e, i, open, w, close, stop) ensures w == e[s..j] {
      DelimitedIsRun(e, i, open, w, close, stop);
    }
  }

  /** `open`, a non-empty `stop`-free run, then `close`, form a match. */
  lemma RunIsDelimited(e: string, i: nat, s: nat, j: nat, open: string, close: string, stop: char)
    requires OccursAt(e, open, i) && s == i + |open|
    requires s < j <= |e| && forall k :: s <= k < j ==> e[k] != stop
    requires OccursAt(e, close, j)
    ensures DelimitedAt(e, i, open, e[s..j], close, stop)
  {
    var v := e[s..j];
    assert Lacks(v, stop) by {
      forall k | 0 <= k < |v| ensures v[k] != stop {
        assert v[k] == e[s + k];
      }
    }
    SliceConcat(e, i, s, j, j + |close|);
    assert e[i..s] == open && e[j..j + |close|] == close;
    assert e[i..j + |close|] == open + v + close;
  }

  lemma DelimitedMissing(e: string, i: nat, open: string, close: string, stop: char)
    requires |close| > 0 && close[0] == stop
    requires !OccursAt(e, open, i)
             || !(i + |open| < RunEnd(e, i + |open|, stop))
             || !OccursAt(e, close, RunEnd(e, i + |open|, stop))
    ensures forall v :: !DelimitedAt(e, i, open, v, close, stop)
  {
    forall v | DelimitedAt(e, i, open, v, close, stop) ensures false {
      DelimitedIsRun(e, i, open, v, close, stop);
    }
  }

  // ---------------------------------------------------------------------
  // `open([^<]+)close` for the video id and the title

  /** The regex `open([^<]+)close` matches at `i` capturing `v`. */
  predicate TaggedAt(e: string, i: int, open: string, close: string, v: string) {
    DelimitedAt(e, i, open, v, close, '<')
  }

  /** The leftmost match position wins: `v` is captured at some `i` and
      there is no match at all before `i`. */
  ghost predicate LeftmostTagged(e: string, open: string, close: string, v: string) {
    exists i :: 0 <= i <= |e| && TaggedAt(e, i, open, close, v)
                && forall j, w :: 0 <= j < i ==> !TaggedAt(e, j, open, close, w)
  }

  /** Unanchored search for `open([^<]+)close`, trying positions from
      `from` on. */
  function FirstTagged(e: string, open: string, close: string, from: nat): (r: Option<string>)
    requires |close| > 0 && close[0] == '<'
    requires from <= |e|
    requires forall j, w :: 0 <= j < from ==> !TaggedAt(e, j, open, close, w)
    ensures r.Some? ==> LeftmostTagged(e, open, close, r.value)
    ensures r.None? ==> forall i, v :: !TaggedAt(e, i, open, close, v)
    decreases |e| - from
  {
    match DelimitedMatchAt(e, from, open, close, '<')
    case Some(v) =>
      assert TaggedAt(e, from, open, close, v);
      Some(v)
    case None =>
      if from == |e| then None else FirstTagged(e, open, close, from + 1)
  }

  /** `/<yt:videoId>([^<]+)<\/yt:videoId>/`'s capture. */
  function VideoIdOf(entry: string): (r: Option<string>)
    ensures r.Some? ==> LeftmostTagged(entry, VideoIdOpen, VideoIdClose, r.value)
    ensures r.None? ==> forall i, v :: !TaggedAt(entry, i, VideoIdOpen, VideoIdClose, v)
  {
    FirstTagged(entry, VideoIdOpen, VideoIdClose, 0)
  }

  /** `/<title>([^<]+)<\/title>/`'s capture. */
  function TitleOf(entry: string): (r: Option<string>)
    ensures r.Some? ==> LeftmostTagged(entry, TitleOpen, TitleClose, r.value)
    ensures r.None? ==> forall i, v :: !TaggedAt(entry, i, TitleOpen, TitleClose, v)
  {
    FirstTagged(entry, TitleOpen, TitleClose, 0)
  }

  // ---------------------------------------------------------------------
  // `media:thumbnail[^>]+url="([^"]+)"`

  /** The attribute part `url="([^"]+)"` matches at `q` capturing `v`. */
  predicate UrlAttrAt(e: string, q: int, v: string) {
    DelimitedAt(e, q, UrlAttr, v, "\"", '"')
  }

  /** The regex matches at `i`, its `[^>]+` ending at `q`, capturing `v`. */
  predicate ThumbnailAt(e: string, i: int, q: int, v: string) {
    && OccursAt(e, ThumbnailTag, i)
    && i + |ThumbnailTag| < q <= |e|
    && Lacks(e[i + |ThumbnailTag|..q], '>')
    && UrlAttrAt(e, q, v)
  }

  /** Greedy `[^>]+` backtracking: tries attribute positions `q`, `q-1`,
      ..., `p+1` and keeps the first (largest) that matches. */
  function LastUrlAttr(e: string, p: nat, q: nat): (r: Option<string>)
    ensures r.Some? ==> exists q' :: p < q' <= q && UrlAttrAt(e, q', r.value)
                                   && forall q'', w :: q' < q'' <= q ==> !UrlAttrAt(e, q'', w)
    ensures r.None? ==> forall q', w :: p < q' <= q ==> !UrlAttrAt(e, q', w)
    decreases q
  {
    if q <= p then None
    else
      match DelimitedMatchAt(e, q, UrlAttr, "\"", '"')
      case Some(v) =>
        assert UrlAttrAt(e, q, v);
        Some(v)
      case None => LastUrlAttr(e, p, q - 1)
  }

  /** The match attempt at `i` for the thumbnail regex. */
  function ThumbnailMatchAt(e: string, i: nat): (r: Option<string>)
    ensures r.Some? ==> exists q :: ThumbnailAt(e, i, q, r.value)
                                    && forall q', w :: ThumbnailAt(e, i, q', w) ==> q' <= q
    ensures r.None? ==> forall q, v :: !ThumbnailAt(e, i, q, v)
  {
    if !OccursAt(e, ThumbnailTag, i) then None
    else
      var p := i + |ThumbnailTag|;
      var m := RunEnd(e, p, '>');
      ThumbnailWindow(e, i);
      LastUrlAttr(e, p, m)
  }

  /** The `[^>]+` part can end exactly at the positions up to the first `>`. */
  lemma ThumbnailWindow(e: string, i: nat)
    requires OccursAt(e, ThumbnailTag, i)
    ensures forall q, v :: ThumbnailAt(e, i, q, v) <==>
      i + |ThumbnailTag| < q <= RunEnd(e, i + |ThumbnailTag|, '>') && UrlAttrAt(e, q, v)
  {
    var p := i + |ThumbnailTag|;
    var m := RunEnd(e, p, '>');
    forall q, v | ThumbnailAt(e, i, q, v) ensures q <= m {
    }
    forall q, v | p < q <= m && UrlAttrAt(e, q, v) ensures ThumbnailAt(e, i, q, v) {
      forall k | 0 <= k < q - p ensures e[p..q][k] != '>' {
        assert e[p..q][k] == e[p + k];
      }
    }
  }

  /** Leftmost match position, then the capture of that attempt. */
  ghost predicate LeftmostThumbnail(e: string, v: string) {
    exists i, q :: 0 <= i <= |e| && ThumbnailAt(e, i, q, v)
                   && (forall q', w :: ThumbnailAt(e, i, q', w) ==> q' <= q)
                   && forall j, q', w :: 0 <= j < i ==> !ThumbnailAt(e, j, q', w)
  }

  function FirstThumbnail(e: string, from: nat): (r: Option<string>)
    requires from <= |e|
    requires forall j, q, w :: 0 <= j < from ==> !ThumbnailAt(e, j, q, w)
    ensures r.Some? ==> LeftmostThumbnail(e, r.value)
    ensures r.None? ==> forall i, q, v :: !ThumbnailAt(e, i, q, v)
    decreases |e| - from
  {
    match ThumbnailMatchAt(e, from)
    case Some(v) => Some(v)
    case None =>
      if from == |e| then None else FirstThumbnail(e, from + 1)
  }

  /** `/media:thumbnail[^>]+url="([^"]+)"/`'s capture. */
  function ThumbnailOf(entry: string): (r: Option<string>)
    ensures r.Some? ==> LeftmostThumbnail(entry, r.value)
    ensures r.None? ==> forall i, q, v :: !ThumbnailAt(entry, i, q, v)
  {
    FirstThumbnail(entry, 0)
  }

  // ---------------------------------------------------------------------
  // From a response to catalog items

  /** The item built from one entry, or None when the entry has no video
      id (the fetcher skips such entries). */
  function SummaryOf(entry: string): (r: Option<VideoSummary>)
    ensures r.Some? <==> VideoIdOf(entry).Some?
  {
    match VideoIdOf(entry)
    case None => None
    case Some(vid) =>
      Some(VideoSummary(ItemPrefix + vid, "series", TitleOf(entry).GetOr(vid), ThumbnailOf(entry), "", "landscape"))
  }

  /** The item is what the fetcher pushes for an entry with a video id. */
  predicate SummaryShape(s: VideoSummary) {
    && |s.id| > |ItemPrefix| && s.id[..|ItemPrefix|] == ItemPrefix
    && Lacks(s.id[|ItemPrefix|..], '<')
    && |s.name| > 0
    && s.kind == "series" && s.description == "" && s.posterShape == "landscape"
  }

  /** The items of the entries that have a video id, in entry order. */
  function MetasOf(entries: seq<string>): (r: seq<VideoSummary>)
    ensures |r| <= |entries|
    ensures forall k :: 0 <= k < |r| ==> SummaryShape(r[k])
  {
    if |entries| == 0 then []
    else
      match SummaryOf(entries[0])
      case None => MetasOf(entries[1..])
      case Some(s) =>
        SummaryOfShape(entries[0]);
        [s] + MetasOf(entries[1..])
  }

  /** Every item built from an entry has the promised shape: id `yt:` and
      the non-empty `<`-free video id, name the title or else the video id,
      poster the thumbnail, empty description, fixed type and shape. */
  lemma SummaryOfShape(entry: string)
    requires SummaryOf(entry).Some?
    ensures SummaryShape(SummaryOf(entry).value)
    ensures var vid := VideoIdOf(entry).value;
      && SummaryOf(entry).value.id == ItemPrefix + vid
      && SummaryOf(entry).value.name == (if TitleOf(entry).Some? then TitleOf(entry).value else vid)
      && SummaryOf(entry).value.poster == ThumbnailOf(entry)
  {
    var vid := VideoIdOf(entry).value;
    var id := ItemPrefix + vid;
    assert id[|ItemPrefix|..] == vid;
    if TitleOf(entry).Some? {
      assert |TitleOf(entry).value| > 0;
    }
  }

  /** A single entry yields its item, or nothing when it has no video id. */
  lemma MetasOfOne(entry: string)
    ensures VideoIdOf(entry).None? ==> MetasOf([entry]) == []
    ensures VideoIdOf(entry).Some? ==>
      MetasOf([entry]) == [VideoSummary(ItemPrefix + VideoIdOf(entry).value, "series",
                                        TitleOf(entry).GetOr(VideoIdOf(entry).value),
                                        ThumbnailOf(entry), "", "landscape")]
  {
    assert [entry][1..] == [];
  }

  /** Processing entries is a homomorphism over concatenation: the items of
      `a + b` are those of `a` followed by those of `b`. */
  lemma {:induction false} MetasOfAppend(a: seq<string>, b: seq<string>)
    ensures MetasOf(a + b) == MetasOf(a) + MetasOf(b)
    decreases |a|
  {
    if |a| > 0 {
      assert (a + b)[1..] == a[1..] + b;
      MetasOfAppend(a[1..], b);
    } else {
      assert a + b == b;
    }
  }

  /** The item-or-nothing of each entry, position by position. */
  function Summaries(entries: seq<string>): (r: seq<Option<VideoSummary>>)
    ensures |r| == |entries|
    ensures forall j :: 0 <= j < |entries| ==> r[j] == SummaryOf(entries[j])
  {
    seq(|entries|, j requires 0 <= j < |entries| => SummaryOf(entries[j]))
  }

  /** The fetcher's items are the present values among the entries'
      item-or-nothing results. */
  lemma {:induction false} MetasOfPresent(entries: seq<string>)
    ensures MetasOf(entries) == Present(Summaries(entries))
    decreases |entries|
  {
    if |entries| > 0 {
      MetasOfPresent(entries[1..]);
      assert Summaries(entries)[1..] == Summaries(entries[1..]);
    }
  }

  /** The items are exactly the in-order subsequence of entries that have
      a video id: `idx` lists the positions used, strictly increasing, and
      holds every entry with a video id; entries without one are skipped
      whole, never emitted in part. */
  lemma MetasOfSelects(entries: seq<string>) returns (idx: seq<nat>)
    ensures PicksPresent(Summaries(entries), MetasOf(entries), idx)
    ensures forall j :: 0 <= j < |entries| && VideoIdOf(entries[j]).Some? ==> j in idx
  {
    MetasOfPresent(entries);
    idx := PresentSelects(Summaries(entries));
  }

  /** When every entry has a video id, nothing is dropped: one item per
      entry, in the same order. */
  lemma {:induction false} MetasOfComplete(entries: seq<string>)
    requires forall j :: 0 <= j < |entries| ==> VideoIdOf(entries[j]).Some?
    ensures |MetasOf(entries)| == |entries|
    ensures forall j :: 0 <= j < |entries| ==> Some(MetasOf(entries)[j]) == SummaryOf(entries[j])
    decreases |entries|
  {
    if |entries| > 0 {
      MetasOfComplete(entries[1..]);
      assert forall j :: 1 <= j < |entries| ==> entries[1..][j - 1] == entries[j];
    }
  }

  /** `arr.slice(0, end)` for an integer `end`: negative ends count back
      from the length. The number of elements kept. */
  function SliceEnd(end: int, len: nat): (r: nat)
    ensures r <= len
    ensures end >= 0 ==> r <= end
    ensures end >= 0 ==> r == end || r == len
    ensures end < 0 ==> len <= r + -end && (r == 0 || r + -end == len)
  {
    if end >= 0 then (if end < len then end else len)
    else if len + end > 0 then len + end else 0
  }

  /** `xml.split("<entry>").slice(1)`: the `<entry>` chunks after the
      header piece. None of them holds `<entry>`, and there are none
      exactly when the body holds no `<entry>`. */
  function EntryChunks(body: string): (r: seq<string>)
    ensures forall k :: 0 <= k < |r| ==> !Contains(r[k], EntryTag)
    ensures r == [] <==> !Contains(body, EntryTag)
  {
    Split(body, EntryTag)[1..]
  }

  /** The header piece, then the chunks, joined with `<entry>`, give back
      the body: the chunks are the whole body after the first `<entry>`. */
  lemma EntryChunksJoin(body: string)
    ensures Join([Split(body, EntryTag)[0]] + EntryChunks(body), EntryTag) == body
  {
    var parts := Split(body, EntryTag);
    assert [parts[0]] + parts[1..] == parts;
    JoinSplit(body, EntryTag);
  }

  /** The chunks the fetcher looks at: at most `min(maxResults, 50)` of
      them, with JavaScript's slice rule for a negative bound. */
  function ConsideredEntries(body: string, maxResults: int): (r: seq<string>)
    ensures |r| <= |EntryChunks(body)|
    ensures maxResults >= 0 ==> |r| <= maxResults && |r| <= FeedEntryCap
    ensures maxResults >= 0 ==> |r| == maxResults || |r| == FeedEntryCap || r == EntryChunks(body)
    ensures r == EntryChunks(body)[..|r|]
  {
    var chunks := EntryChunks(body);
    var limit := if maxResults < FeedEntryCap then maxResults else FeedEntryCap;
    chunks[..SliceEnd(limit, |chunks|)]
  }

  /** A negative limit is not clamped at zero: as a slice end it drops the
      last `-maxResults` chunks and keeps all the others, so the 50-entry
      cap does not apply. */
  lemma NegativeLimitDropsTail(body: string, maxResults: int)
    requires maxResults < 0 && -maxResults <= |EntryChunks(body)|
    ensures var chunks := EntryChunks(body);
      && ConsideredEntries(body, maxResults) + chunks[|chunks| + maxResults..] == chunks
      && (|chunks| >= FeedEntryCap - maxResults ==> |ConsideredEntries(body, maxResults)| >= FeedEntryCap)
  {
    var chunks := EntryChunks(body);
    assert chunks[..|chunks| + maxResults] + chunks[|chunks| + maxResults..] == chunks;
  }

  /** The fetcher's result once the response is known: nothing for a
      non-ok status, otherwise the items of the considered chunks. */
  function FeedMetas(response: FeedResponse, maxResults: int): (r: seq<VideoSummary>)
    ensures response.NotOk? ==> r == []
    ensures maxResults >= 0 ==> |r| <= maxResults && |r| <= FeedEntryCap
    ensures response.Ok? ==> |r| <= |EntryChunks(response.body)|
    ensures forall k :: 0 <= k < |r| ==> SummaryShape(r[k])
  {
    match response
    case NotOk(_) => []
    case Ok(body) => MetasOf(ConsideredEntries(body, maxResults))
  }

  /** The fetcher's loop as written: walk the considered chunks, skip those
      without a video id, push an item for the others. */
  method FetchUploads(response: FeedResponse, maxResults: int) returns (metas: seq<VideoSummary>)
    ensures metas == FeedMetas(response, maxResults)
  {
    if response.NotOk? {
      return [];
    }
    var entries := ConsideredEntries(response.body, maxResults);
    metas := [];
    var k := 0;
    while k < |entries|
      invariant 0 <= k <= |entries|
      invariant metas == MetasOf(entries[..k])
    {
      var e := entries[k];
      var vid := VideoIdOf(e);
      assert entries[..k + 1] == entries[..k] + [e];
      MetasOfAppend(entries[..k], [e]);
      MetasOfOne(e);
      if vid.Some? {
        metas := metas + [VideoSummary(ItemPrefix + vid.value, "series", TitleOf(e).GetOr(vid.value),
                                       ThumbnailOf(e), "", "landscape")];
      }
      k := k + 1;
    }
    assert entries[..k] == entries;
  }

  /** `<entry>` cannot overlap itself: `<` occurs in it only at the start. */
  lemma FirstEntryTagAfterHeader(header: string, rest: string)
    requires !Contains(header, EntryTag)
    ensures IndexOf(header + EntryTag + rest, EntryTag, 0) == Some(|header|)
  {
    var s := header + EntryTag + rest;
    assert OccursAt(s, EntryTag, |header|) by {
      assert s[|header|..|header| + |EntryTag|] == EntryTag;
    }
    forall j | 0 <= j < |header| ensures !OccursAt(s, EntryTag, j) {
      if j + |EntryTag| <= |header| {
        assert header[j..j + |EntryTag|] == s[j..j + |EntryTag|];
        assert !OccursAt(header, EntryTag, j);
      } else if j + |EntryTag| <= |s| {
        // the `<` at index |header| would fall strictly inside the tag
        assert s[j..j + |EntryTag|][|header| - j] == s[|header|] == '<';
        assert EntryTag[|header| - j] != '<';
      }
    }
  }

  /** Whatever precedes the first `<entry>` never contributes an item. */
  lemma HeaderIgnored(header: string, rest: string, maxResults: int)
    requires !Contains(header, EntryTag)
    ensures FeedMetas(Ok(header + EntryTag + rest), maxResults) == FeedMetas(Ok(EntryTag + rest), maxResults)
  {
    FirstEntryTagAfterHeader(header, rest);
    SplitAtFirst(header, EntryTag, rest);
    assert !Contains("", EntryTag);
    FirstEntryTagAfterHeader("", rest);
    assert "" + EntryTag + rest == EntryTag + rest;
    SplitAtFirst("", EntryTag, rest);
  }
}
