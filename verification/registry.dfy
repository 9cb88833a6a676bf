/** The static channel registry: named groups, in declaration order, each
    holding an ordered list of YouTube channels. The registry is plain data;
    the catalog resolver and the manifest are derived from it. */
module Registry {
  import opened Text

  datatype ChannelRef = ChannelRef(id: string, name: string)

  /** One entry of the registry object: its key and its channel list.
      `Object.entries` visits non-numeric string keys in insertion order, so a sequence
      of groups keeps the order the manifest sees. */
  datatype Group = Group(key: string, channels: seq<ChannelRef>)

  /** The configured channels. */
  const ChannelGroups: seq<Group> := [
    Group("Tech", [
      ChannelRef("UCXuqSBlHAE6Xw-yeJA0Tunw", "Linus Tech Tips"),
      ChannelRef("UCBJycsmduvYEL83R_U4JriQ", "MKBHD"),
      ChannelRef("UCdBK94H6oZT2Q7l0-b0xmMg", "Short Circuit - LTT")
    ]),
    Group("Automotive", [
      ChannelRef("UCyXiDU5qjfOPxgOPeFWGwKw", "Throttle House")
    ]),
    Group("Podcasts", [
      ChannelRef("UCFP1dDbFt0B7X6M2xPDj1bA", "WVFRM Podcast")
    ]),
    Group("Entertainment", [
      ChannelRef("UCSpFnDQr88xCZ80N-X7t0nQ", "Corridor Crew MAIN")
    ])
  ]

  /** Number of videos requested per channel feed. */
  const VideosPerChannel: int := 20

  /** The fetcher never considers more feed entries than this. */
  const FeedEntryCap: int := 50

  /** A JavaScript regex line terminator, which `.` does not match. */
  predicate IsLineTerminator(c: char) {
    c == '\n' || c == '\r' || c == '\U{2028}' || c == '\U{2029}'
  }

  /** The character class `[A-Za-z0-9_-]`. */
  predicate IsIdChar(c: char) {
    ('A' <= c <= 'Z') || ('a' <= c <= 'z') || ('0' <= c <= '9') || c == '_' || c == '-'
  }

  predicate AllIdChars(s: string) {
    forall k :: 0 <= k < |s| ==> IsIdChar(s[k])
  }

  /** A group key that, once lowered, is captured whole by the catalog-id
      pattern's lazy group: non-empty, no `-`, no line terminator. */
  predicate ValidKey(key: string) {
    |key| > 0 && forall k :: 0 <= k < |key| ==> IsKeyChar(key[k])
  }

  predicate IsKeyChar(c: char) {
    c != '-' && !IsLineTerminator(c)
  }

  /** A channel id that the pattern's channel part accepts. */
  predicate ValidChannelId(id: string) {
    |id| > 0 && AllIdChars(id)
  }

  /** The conditions under which every advertised catalog id resolves back
      to its own channel: valid keys and ids, group keys distinct after
      lowering, and channel ids distinct within a group. */
  predicate ValidRegistry(reg: seq<Group>) {
    && (forall g :: 0 <= g < |reg| ==> ValidKey(reg[g].key))
    && (forall g, h :: 0 <= g < h < |reg| ==> Lower(reg[g].key) != Lower(reg[h].key))
    && (forall g, c :: 0 <= g < |reg| && 0 <= c < |reg[g].channels| ==>
          ValidChannelId(reg[g].channels[c].id))
    && (forall g, c, d :: 0 <= g < |reg| && 0 <= c < d < |reg[g].channels| ==>
          reg[g].channels[c].id != reg[g].channels[d].id)
  }

  /** The configured registry meets those conditions. */
  lemma ChannelGroupsValid()
    ensures ValidRegistry(ChannelGroups)
  {
    ConfiguredKeysValid();
    ConfiguredIdsValid();
    var reg := ChannelGroups;
    assert reg[0].channels[0].id[2] != reg[0].channels[1].id[2];
    assert reg[0].channels[0].id[2] != reg[0].channels[2].id[2];
    assert reg[0].channels[1].id[2] != reg[0].channels[2].id[2];
  }

  /** Every configured key is a valid key, and no two lower to the same
      string (their first letters already differ). */
  lemma ConfiguredKeysValid()
    ensures forall g :: 0 <= g < |ChannelGroups| ==> ValidKey(ChannelGroups[g].key)
    ensures forall g, h :: 0 <= g < h < |ChannelGroups| ==>
              Lower(ChannelGroups[g].key) != Lower(ChannelGroups[h].key)
  {
    var reg := ChannelGroups;
    forall k | 0 <= k < |reg[0].key| ensures IsKeyChar(reg[0].key[k]) {
      assert reg[0].key[k] in {'T', 'c', 'e', 'h'};
    }
    forall k | 0 <= k < |reg[1].key| ensures IsKeyChar(reg[1].key[k]) {
      assert reg[1].key[k] in {'A', 'e', 'i', 'm', 'o', 't', 'u', 'v'};
    }
    forall k | 0 <= k < |reg[2].key| ensures IsKeyChar(reg[2].key[k]) {
      assert reg[2].key[k] in {'P', 'a', 'c', 'd', 'o', 's', 't'};
    }
    forall k | 0 <= k < |reg[3].key| ensures IsKeyChar(reg[3].key[k]) {
      assert reg[3].key[k] in {'E', 'a', 'e', 'i', 'm', 'n', 'r', 't'};
    }
    forall g | 0 <= g < |reg| ensures ValidKey(reg[g].key) {
    }
    ConfiguredKeysDistinct();
  }

  lemma ConfiguredKeysDistinct()
    ensures forall g, h :: 0 <= g < h < |ChannelGroups| ==>
              Lower(ChannelGroups[g].key) != Lower(ChannelGroups[h].key)
  {
    var reg := ChannelGroups;
    var first := seq(|reg|, g requires 0 <= g < |reg| => Lower(reg[g].key)[0]);
    assert first == ['t', 'a', 'p', 'e'];
  }

  /** Every configured channel id is a non-empty run of `[A-Za-z0-9_-]`. */
  lemma ConfiguredIdsValid()
    ensures forall g, c :: 0 <= g < |ChannelGroups| && 0 <= c < |ChannelGroups[g].channels| ==>
              ValidChannelId(ChannelGroups[g].channels[c].id)
  {
    var reg := ChannelGroups;
    forall k | 0 <= k < |reg[0].channels[0].id| ensures IsIdChar(reg[0].channels[0].id[k]) {
      assert reg[0].channels[0].id[k] in {'-', '0', '6', 'A', 'B', 'C', 'E', 'H', 'J', 'S', 'T', 'U', 'X', 'e', 'l', 'n', 'q', 'u', 'w', 'y'};
    }
    forall k | 0 <= k < |reg[0].channels[1].id| ensures IsIdChar(reg[0].channels[1].id[k]) {
      assert reg[0].channels[1].id[k] in {'3', '4', '8', 'B', 'C', 'E', 'J', 'L', 'Q', 'R', 'U', 'Y', '_', 'c', 'd', 'i', 'm', 'r', 's', 'u', 'v', 'y'};
    }
    forall k | 0 <= k < |reg[0].channels[2].id| ensures IsIdChar(reg[0].channels[2].id[k]) {
      assert reg[0].channels[2].id[k] in {'-', '0', '2', '4', '6', '7', '9', 'B', 'C', 'H', 'K', 'M', 'Q', 'T', 'U', 'Z', 'b', 'd', 'g', 'l', 'm', 'o', 'x'};
    }
    forall k | 0 <= k < |reg[1].channels[0].id| ensures IsIdChar(reg[1].channels[0].id[k]) {
      assert reg[1].channels[0].id[k] in {'5', 'C', 'D', 'F', 'G', 'K', 'O', 'P', 'U', 'W', 'X', 'e', 'f', 'g', 'i', 'j', 'q', 'w', 'x', 'y'};
    }
    forall k | 0 <= k < |reg[2].channels[0].id| ensures IsIdChar(reg[2].channels[0].id[k]) {
      assert reg[2].channels[0].id[k] in {'0', '1', '2', '6', '7', 'A', 'B', 'C', 'D', 'F', 'M', 'P', 'U', 'X', 'b', 'd', 'j', 't', 'x'};
    }
    forall k | 0 <= k < |reg[3].channels[0].id| ensures IsIdChar(reg[3].channels[0].id[k]) {
      assert reg[3].channels[0].id[k] in {'-', '0', '7', '8', 'C', 'D', 'F', 'N', 'Q', 'S', 'U', 'X', 'Z', 'n', 'p', 'r', 't', 'x'};
    }
  }
}
