/** The stream handler: the second `:`-separated segment of the item id
    goes into a YouTube watch URL, offered as one external link. */
module Stream {
  import opened Wrappers
  import opened Text

  const WatchUrlPrefix: string := "https://www.youtube.com/watch?v="
  const StreamTitle: string := "Open on YouTube"

  /** A stream entry that opens an external URL. */
  datatype StreamLink = StreamLink(title: string, externalUrl: string)

  /** `id.split(":")[1]`: None (JavaScript's `undefined`) when the id has
      no `:`, otherwise a segment that holds no `:`. */
  function SecondSegment(id: string): (r: Option<string>)
    ensures r.None? <==> Lacks(id, ':')
    ensures r.Some? ==> Lacks(r.value, ':')
  {
    ContainsChar(id, ':');
    var parts := Split(id, ":");
    if |parts| >= 2 then
      ContainsChar(parts[1], ':');
      Some(parts[1])
    else None
  }

  /** The segment is the text between the first `:` and the next `:` or
      the end of the id. */
  lemma SecondSegmentOf(pre: string, v: string, post: string)
    requires Lacks(pre, ':') && Lacks(v, ':')
    requires post == "" || post[0] == ':'
    ensures SecondSegment(pre + ":" + v + post) == Some(v)
  {
    var id := pre + ":" + v + post;
    var rest := v + post;
    assert id == pre + ":" + rest;
    IndexOfFirstChar(pre, ':', rest);
    SplitAtFirst(pre, ":", rest);
    FirstPiece(v, post);
    assert Split(id, ":")[1] == Split(rest, ":")[0];
  }

  /** The first `:`-separated piece ends at the first `:`. */
  lemma FirstPiece(v: string, post: string)
    requires Lacks(v, ':')
    requires post == "" || post[0] == ':'
    ensures Split(v + post, ":")[0] == v
  {
    if post == "" {
      assert v + post == v;
      ContainsChar(v, ':');
    } else {
      var more := post[1..];
      assert v + post == v + ":" + more;
      IndexOfFirstChar(v, ':', more);
      SplitAtFirst(v, ":", more);
    }
  }

  /** The stream handler's answer: one link titled "Open on YouTube" to
      the watch page of the id's second segment, or of `undefined` when
      the id has no `:` (the template renders the missing value that way). */
  function StreamsFor(id: string): (r: seq<StreamLink>)
    ensures |r| == 1 && r[0].title == StreamTitle
    ensures |r[0].externalUrl| >= |WatchUrlPrefix|
    ensures r[0].externalUrl[..|WatchUrlPrefix|] == WatchUrlPrefix
    ensures Lacks(id, ':') ==> r[0].externalUrl == WatchUrlPrefix + "undefined"
    ensures !Lacks(id, ':') ==> Lacks(r[0].externalUrl[|WatchUrlPrefix|..], ':')
  {
    var url := WatchUrlPrefix + SecondSegment(id).GetOr("undefined");
    assert url[|WatchUrlPrefix|..] == SecondSegment(id).GetOr("undefined");
    [StreamLink(StreamTitle, url)]
  }

  /** For any id `pre:v…` with no `:` in `pre` or `v`, where the rest is
      empty or starts with `:`, the link is the watch page of `v`. */
  lemma StreamForSegments(pre: string, v: string, post: string)
    requires Lacks(pre, ':') && Lacks(v, ':')
    requires post == "" || post[0] == ':'
    ensures StreamsFor(pre + ":" + v + post)[0].externalUrl == WatchUrlPrefix + v
  {
    SecondSegmentOf(pre, v, post);
  }

  /** For a `yt:` item whose video id has no `:`, the link is the watch
      page of exactly that video. */
  lemma StreamForItem(v: string)
    requires Lacks(v, ':')
    ensures StreamsFor("yt:" + v)[0].externalUrl == WatchUrlPrefix + v
  {
    assert "yt:" + v == "yt" + ":" + v + "";
    SecondSegmentOf("yt", v, "");
  }
}
