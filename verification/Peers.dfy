/** The peer table and its five read-modify-write writers. */
module Peers {
  import opened Base

  datatype Peer = Peer(
    id: PeerId,
    firstSeen: Time,
    lastSeen: Time,
    lastCrawled: Time,
    lastPinned: Time,
    expiration: Time,
    record: string,
    banned: bool)

  /** The zero value that a lookup leaves when there is no row. */
  const ZERO_PEER := Peer(NO_PEER, 0, 0, 0, 0, 0, "", false)

  type Table = map<PeerId, Peer>

  /** Rows are saved under the id they carry. */
  predicate Keyed(t: Table) {
    forall p | p in t :: t[p].id == p
  }

  function Lookup(t: Table, p: PeerId): Peer {
    if p in t then t[p] else ZERO_PEER
  }

  predicate Banned(t: Table, p: PeerId) {
    Lookup(t, p).banned
  }

  // ----- What each writer does to the table; `t0` and `t1` are its clock readings -----

  function Seen(t: Table, p: PeerId, t0: Time, t1: Time): Table {
    t[p := if p in t then t[p].(lastSeen := t1) else ZERO_PEER.(id := p, firstSeen := t0, lastSeen := t1)]
  }

  function Published(t: Table, p: PeerId, expiration: Time, record: string, t0: Time, t1: Time): Table {
    t[p := Seen(t, p, t0, t1)[p].(expiration := expiration, record := record)]
  }

  function WithBan(t: Table, p: PeerId, banned: bool): Table {
    t[p := Lookup(t, p).(id := p, banned := banned)]
  }

  /** A peer without a row has its crawl noted under the empty id. */
  function CrawlNoted(t: Table, p: PeerId, pinned: bool, t0: Time, t1: Time): Table {
    var row := Lookup(t, p);
    t[row.id := row.(lastCrawled := t0, lastPinned := if pinned then t1 else row.lastPinned)]
  }

  /**
    Each writer is one transaction.  `load`, `save` and `query` say whether its
    statements succeed (`save` includes the commit); if one fails, the table is as
    it was.
   */
  class PeerStore {
    var peers: Table

    constructor ()
      ensures peers == map[]
    {
      peers := map[];
    }

    /** `listenPeers`: a connection was opened or closed. */
    method UpdatePeer(p: PeerId, t0: Time, t1: Time, load: bool, save: bool)
      requires Keyed(peers)
      modifies this
      ensures Keyed(peers) && peers == if load && save then Seen(old(peers), p, t0, t1) else old(peers)
    {
      if !load {
        return;
      }
      var peer := ZERO_PEER;
      if p in peers {
        peer := peers[p];
      } else {
        peer := peer.(firstSeen := t0);
        peer := peer.(id := p);
      }
      peer := peer.(lastSeen := t1);
      if save {
        peers := peers[peer.id := peer];
      }
    }

    /**
      `listenPubsub`: a valid record arrived.  `banned` decides whether a job is
      queued; a failed load leaves it false.
     */
    method SaveRecord(p: PeerId, expiration: Time, record: string, t0: Time, t1: Time, load: bool, save: bool)
      returns (banned: bool)
      requires Keyed(peers)
      modifies this
      ensures Keyed(peers)
      ensures banned <==> load && Banned(old(peers), p)
      ensures peers == if load && save then Published(old(peers), p, expiration, record, t0, t1) else old(peers)
    {
      banned := false;
      if !load {
        return;
      }
      var peer := ZERO_PEER;
      if p in peers {
        peer := peers[p];
      } else {
        peer := peer.(id := p);
        peer := peer.(firstSeen := t0);
      }
      peer := peer.(lastSeen := t1);
      peer := peer.(expiration := expiration);
      peer := peer.(record := record);
      banned := peer.banned;
      if save {
        peers := peers[peer.id := peer];
      }
    }

    /**
      Sets the flag, and in the same transaction asks for the CIDs to unpin; if
      that fails there is no ban, and nothing is unpinned.
     */
    method BanNode(p: PeerId, load: bool, save: bool, query: bool) returns (ok: bool)
      requires Keyed(peers)
      modifies this
      ensures ok <==> load && save && query
      ensures Keyed(peers) && peers == if ok then WithBan(old(peers), p, true) else old(peers)
    {
      if !load {
        return false;
      }
      var peer := ZERO_PEER;
      if p in peers {
        peer := peers[p];
      }
      peer := peer.(id := p);
      peer := peer.(banned := true);
      if !save {
        return false;
      }
      if !query {
        return false;
      }
      peers := peers[peer.id := peer];
      ok := true;
    }

    method UnbanNode(p: PeerId, load: bool, save: bool) returns (ok: bool)
      requires Keyed(peers)
      modifies this
      ensures ok <==> load && save
      ensures Keyed(peers) && peers == if ok then WithBan(old(peers), p, false) else old(peers)
    {
      if !load {
        return false;
      }
      var peer := ZERO_PEER;
      if p in peers {
        peer := peers[p];
      }
      peer := peer.(id := p);
      peer := peer.(banned := false);
      if save {
        peers := peers[peer.id := peer];
      }
      ok := save;
    }

    /** The deferred update at the end of every crawl job that returns. */
    method NoteCrawl(p: PeerId, pinned: bool, t0: Time, t1: Time, load: bool, save: bool)
      requires Keyed(peers)
      modifies this
      ensures Keyed(peers)
      ensures peers == if load && save then CrawlNoted(old(peers), p, pinned, t0, t1) else old(peers)
    {
      if !load {
        return;
      }
      var peer := ZERO_PEER;
      if p in peers {
        peer := peers[p];
      }
      peer := peer.(lastCrawled := t0);
      if pinned {
        peer := peer.(lastPinned := t1);
      }
      if save {
        peers := peers[peer.id := peer];
      }
    }
  }
}
