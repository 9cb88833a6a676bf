/** How the handlers fit together: the items a catalog emits are ids the
    meta and stream handlers take back apart. */
module Addon {
  import opened Wrappers
  import opened Text
  import opened Feed
  import Meta
  import Stream

  /** An emitted item's id opens the right video. The meta handler recovers
      the video id, so its fallback record names that video. The stream
      handler links to that video's watch page whenever the id has no `:`,
      which holds for YouTube's 11-character video ids. */
  lemma ItemRoundTrip(s: VideoSummary)
    requires SummaryShape(s)
    ensures var vid := s.id[|ItemPrefix|..];
      && Meta.ItemVideoId(s.id) == vid
      && Meta.MetaFor(s.id, None).name == "YouTube Video " + vid
      && (Lacks(vid, ':') ==>
            Stream.StreamsFor(s.id)[0].externalUrl == Stream.WatchUrlPrefix + vid)
  {
    var vid := s.id[|ItemPrefix|..];
    assert s.id == "yt:" + vid;
    Meta.ItemVideoIdOfItem(vid);
    if Lacks(vid, ':') {
      Stream.StreamForItem(vid);
    }
  }

  /** Every item of a fetched feed opens its own video in the meta and
      stream handlers. */
  lemma FeedItemsRoundTrip(response: FeedResponse, maxResults: int, k: nat)
    requires k < |FeedMetas(response, maxResults)|
    ensures var s := FeedMetas(response, maxResults)[k];
      var vid := s.id[|ItemPrefix|..];
      && Meta.ItemVideoId(s.id) == vid
      && (Lacks(vid, ':') ==>
            Stream.StreamsFor(s.id)[0].externalUrl == Stream.WatchUrlPrefix + vid)
  {
    ItemRoundTrip(FeedMetas(response, maxResults)[k]);
  }
}
