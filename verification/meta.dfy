/** The meta handler: the video id is the item id with its first `yt:`
    removed, the oEmbed lookup for it is an input, and the detail record is
    built from the lookup's result or, when there is none, from
    placeholder text. */
module Meta {
  import opened Wrappers
  import opened Text

  /** The oEmbed fields the handler reads. */
  datatype OEmbed = OEmbed(title: string, thumbnailUrl: string, authorName: string)

  /** The single playable entry of a detail record. */
  datatype Episode = Episode(id: string, title: string, season: int, episode: int)

  /** The detail record; absent fields are None. */
  datatype MetaDetail = MetaDetail(
    id: string,
    kind: string,
    name: string,
    poster: Option<string>,
    background: Option<string>,
    description: Option<string>,
    posterShape: string,
    videos: seq<Episode>)

  /** `id.replace("yt:", "")`: the video id the oEmbed lookup is made for.
      Only the first `yt:` goes, wherever it is; an id without one is used
      as it is. */
  function ItemVideoId(id: string): (vid: string)
    ensures !Contains(id, "yt:") ==> vid == id
    ensures Contains(id, "yt:") ==> |vid| == |id| - 3
    ensures forall i :: OccursAt(id, "yt:", i) && (forall j :: 0 <= j < i ==> !OccursAt(id, "yt:", j)) ==>
      vid == id[..i] + id[i + 3..]
  {
    ReplaceFirst(id, "yt:", "")
  }

  /** An item id built as `yt:` + v gives back exactly v. */
  lemma ItemVideoIdOfItem(v: string)
    ensures ItemVideoId("yt:" + v) == v
  {
    ReplaceLeadingPattern("yt:", v);
  }

  /** The meta handler's record for `id`, given the oEmbed outcome. It
      always exists and always holds one episode, season 1 episode 1, with
      the item's own id. Without oEmbed data the names are placeholders and
      there is no poster, background or description; with it the name and
      episode title are the oEmbed title, poster and background are the
      thumbnail, and the description credits the author. */
  function MetaFor(id: string, embed: Option<OEmbed>): (m: MetaDetail)
    ensures m.id == id && m.kind == "series" && m.posterShape == "landscape"
    ensures |m.videos| == 1 && m.videos[0].id == id
    ensures m.videos[0].season == 1 && m.videos[0].episode == 1
    ensures embed.None? ==>
      && m.name == "YouTube Video " + ItemVideoId(id)
      && m.videos[0].title == "Video " + ItemVideoId(id)
      && m.poster.None? && m.background.None? && m.description.None?
    ensures embed.Some? ==>
      && m.name == embed.value.title && m.videos[0].title == embed.value.title
      && m.poster == Some(embed.value.thumbnailUrl) && m.background == m.poster
      && m.description == Some(embed.value.title + "\nby " + embed.value.authorName)
  {
    var vid := ItemVideoId(id);
    match embed
    case None =>
      MetaDetail(id, "series", "YouTube Video " + vid, None, None, None, "landscape",
                 [Episode(id, "Video " + vid, 1, 1)])
    case Some(oe) =>
      MetaDetail(id, "series", oe.title, Some(oe.thumbnailUrl), Some(oe.thumbnailUrl),
                 Some(oe.title + "\nby " + oe.authorName), "landscape",
                 [Episode(id, oe.title, 1, 1)])
  }

  /** The placeholder names mention the video id of a `yt:` item, so the
      fallback record still tells which video it is. */
  lemma FallbackNamesItem(v: string)
    ensures MetaFor("yt:" + v, None).name == "YouTube Video " + v
    ensures MetaFor("yt:" + v, None).videos[0].title == "Video " + v
  {
    ItemVideoIdOfItem(v);
  }
}
