/** The keys by which the match finders order positions. */
module Keys {
  import opened Results
  import opened Bytes
  import opened TokenFormat
  import opened Window

  /** The key of a position: its suffix, cut at the key limit. */
  function Key(data: seq<byte>, limit: nat, p: nat): seq<byte>
    requires p <= |data|
  {
    if limit == 0 then data[p..] else data[p..Min(p + limit, |data|)]
  }

  /** How much of a match the keys can see. */
  function Cap(limit: nat): nat {
    if limit == 0 then MAX_MATCH else Min(limit, MAX_MATCH)
  }

  /** Common prefixes of keys are match lengths, as far as the keys reach. */
  lemma KeyLcp(data: seq<byte>, limit: nat, p: nat, position: nat)
    requires p <= position <= |data|
    ensures Min(MatchLength(data, p, position), Cap(limit))
         == Min(Lcp(Key(data, limit, p), Key(data, limit, position)), MAX_MATCH)
  {
    hide Lcp;
    if limit != 0 {
      LcpTruncated(data[p..], data[position..], limit);
      assert Key(data, limit, p) == data[p..][..Min(limit, |data[p..]|)];
      assert Key(data, limit, position) == data[position..][..Min(limit, |data[position..]|)];
    }
  }
}
