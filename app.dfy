/** The library app's catalog assembly: pick the NFT wallets of the connected
    wallet, gather their NFTs, and merge each NFT's local and marketplace
    records into the list of media the grid shows. The wallet and marketplace
    RPCs, the metadata fetch and the local store are outside the model: their
    answers are parameters. */
module App {
  import opened Options

  // ---------------------------------------------------------------------------
  // Wallets and NFTs
  // ---------------------------------------------------------------------------

  /** The wallet types the app distinguishes: NFT wallets and all others. */
  datatype WalletType = Nft | Other

  /** One wallet reported by `getWallets`. */
  datatype WalletInfo = WalletInfo(id: int, walletType: WalletType)

  /** One NFT reported by `getNfts`. */
  datatype NftInfo = NftInfo(walletId: int, minterDid: string, metadataUris: seq<string>, dataUris: seq<string>)

  /** One `[key, list]` pair of the `getNfts` response, in the order the
      response's entries are enumerated. */
  type NftListEntry = (string, seq<NftInfo>)

  /** The ids of the NFT wallets among `wallets`, in order. */
  function NftWalletIds(wallets: seq<WalletInfo>): seq<int>
  {
    if |wallets| == 0 then []
    else
      var last := wallets[|wallets| - 1];
      NftWalletIds(wallets[..|wallets| - 1]) + (if last.walletType == Nft then [last.id] else [])
  }

  /** Every NFT of every list, list after list. */
  function Flatten(entries: seq<NftListEntry>): seq<NftInfo>
  {
    if |entries| == 0 then [] else Flatten(entries[..|entries| - 1]) + entries[|entries| - 1].1
  }

  /** The sum of the lengths of the lists. */
  function TotalLength(entries: seq<NftListEntry>): nat
  {
    if |entries| == 0 then 0 else |entries[0].1| + TotalLength(entries[1..])
  }

  /** The ids requested from `getNfts` are exactly those of the NFT wallets,
      in input order: the k-th id comes from the k-th NFT wallet, at strictly
      increasing positions, and no NFT wallet is skipped. */
  lemma {:induction false} NftWalletIdsSelectsNftWallets(wallets: seq<WalletInfo>) returns (positions: seq<nat>)
    ensures |positions| == |NftWalletIds(wallets)|
    ensures forall k | 0 <= k < |positions| ::
      positions[k] < |wallets| && wallets[positions[k]].walletType == Nft &&
      NftWalletIds(wallets)[k] == wallets[positions[k]].id
    ensures forall k, m | 0 <= k < m < |positions| :: positions[k] < positions[m]
    ensures forall w | 0 <= w < |wallets| && wallets[w].walletType == Nft :: w in positions
  {
    if |wallets| == 0 {
      positions := [];
    } else {
      var init := wallets[..|wallets| - 1];
      var last := |wallets| - 1;
      var prev := NftWalletIdsSelectsNftWallets(init);
      var ids, prevIds := NftWalletIds(wallets), NftWalletIds(init);
      assert forall w | 0 <= w < |init| :: init[w] == wallets[w];
      assert forall k | 0 <= k < |prevIds| :: ids[k] == prevIds[k];
      if wallets[last].walletType == Nft {
        positions := prev + [last];
        assert ids == prevIds + [wallets[last].id];
      } else {
        positions := prev;
        assert ids == prevIds;
      }
      forall w | 0 <= w < |wallets| && wallets[w].walletType == Nft
        ensures w in positions
      {
        if w < last {
          assert w in prev;
        }
      }
    }
  }

  /** Flattening preserves the entries' order: the NFTs of earlier entries
      come first. */
  lemma {:induction false} FlattenAppend(a: seq<NftListEntry>, b: seq<NftListEntry>)
    ensures Flatten(a + b) == Flatten(a) + Flatten(b)
  {
    if |b| == 0 {
      assert a + b == a;
    } else {
      var init := b[..|b| - 1];
      assert (a + b)[..|a + b| - 1] == a + init;
      FlattenAppend(a, init);
    }
  }

  /** No NFT is lost or added: the flattened list is as long as all lists together. */
  lemma {:induction false} FlattenLength(entries: seq<NftListEntry>)
    ensures |Flatten(entries)| == TotalLength(entries)
  {
    if |entries| > 0 {
      FlattenLength(entries[1..]);
      FlattenAppend([entries[0]], entries[1..]);
      assert [entries[0]] + entries[1..] == entries;
      assert [entries[0]][..0] == [];
    }
  }

  /** An NFT is in the flattened list exactly when it is in one of the lists. */
  lemma {:induction false} FlattenContains(entries: seq<NftListEntry>, nft: NftInfo)
    ensures nft in Flatten(entries) <==> exists e | 0 <= e < |entries| :: nft in entries[e].1
  {
    if |entries| > 0 {
      var init := entries[..|entries| - 1];
      FlattenContains(init, nft);
      assert forall e | 0 <= e < |init| :: init[e] == entries[e];
    }
  }

  /** `loadNfts`: keep the ids of the NFT wallets, ask `getNfts` for them and
      flatten the per-wallet lists of the response. Returns the request made
      and the NFTs found. */
  method LoadNfts(wallets: seq<WalletInfo>, getNfts: seq<int> -> seq<NftListEntry>)
    returns (walletIds: seq<int>, nfts: seq<NftInfo>)
    ensures walletIds == NftWalletIds(wallets)
    ensures nfts == Flatten(getNfts(walletIds))
  {
    walletIds := [];
    var w := 0;
    while w < |wallets|
      invariant 0 <= w <= |wallets|
      invariant walletIds == NftWalletIds(wallets[..w])
    {
      assert wallets[..w + 1][..w] == wallets[..w];
      if wallets[w].walletType == Nft {
        walletIds := walletIds + [wallets[w].id];
      }
      w := w + 1;
    }
    assert wallets[..w] == wallets;

    var response := getNfts(walletIds);
    nfts := [];
    var e := 0;
    while e < |response|
      invariant 0 <= e <= |response|
      invariant nfts == Flatten(response[..e])
    {
      var list := response[e].1;
      var n := 0;
      while n < |list|
        invariant 0 <= n <= |list|
        invariant nfts == Flatten(response[..e]) + list[..n]
      {
        assert list[..n + 1] == list[..n] + [list[n]];
        nfts := nfts + [list[n]];
        n := n + 1;
      }
      assert list[..n] == list;
      assert response[..e + 1][..e] == response[..e];
      e := e + 1;
    }
    assert response[..e] == response;
  }

  // ---------------------------------------------------------------------------
  // Merging the local and marketplace records of one NFT
  // ---------------------------------------------------------------------------

  /** A catalog entry. The merge never looks inside one. */
  datatype Media = Media(productId: string, title: string, version: string)

  /** The answer of `getLocalMediaMetadata`. */
  datatype LocalMediaMetadata = LocalMediaMetadata(media: Media)

  /** The answer of the marketplace's `getInstallData`. */
  datatype InstallData = InstallData(installData: Media)

  /** What the app learns about one NFT: the product id from its metadata and
      each lookup's answer, `None` when that lookup threw. */
  datatype NftLookup = NftLookup(productId: string, local: Option<LocalMediaMetadata>,
                                 marketplace: Option<InstallData>)

  /** What one NFT contributes: the entry pushed into the result list, if any,
      and the media saved to the local store, if any. */
  datatype MergeOutcome = MergeOutcome(emitted: Option<Media>, saved: Option<Media>)

  /** The four-way decision over (local record?, marketplace record?). */
  function Merge(local: Option<LocalMediaMetadata>, marketplace: Option<InstallData>): (r: MergeOutcome)
    // nothing is emitted only when both lookups failed
    ensures r.emitted.None? <==> local.None? && marketplace.None?
    // the marketplace record wins whenever there is one, and is then always
    // saved, even when it equals the local record
    ensures marketplace.Some? ==> r.emitted == Some(marketplace.value.installData) && r.saved == r.emitted
    // a local record alone is shown as it is and never saved
    ensures marketplace.None? ==> r.saved.None? && (local.Some? ==> r.emitted == Some(local.value.media))
  {
    match (local, marketplace)
    case (Some(l), Some(m)) => MergeOutcome(Some(m.installData), Some(m.installData))
    case (Some(l), None) => MergeOutcome(Some(l.media), None)
    case (None, Some(m)) => MergeOutcome(Some(m.installData), Some(m.installData))
    case (None, None) => MergeOutcome(None, None)
  }

  /** The outcome for one looked-up NFT. */
  function Outcome(lookup: NftLookup): MergeOutcome
  {
    Merge(lookup.local, lookup.marketplace)
  }

  /** The media list built from `lookups`, one NFT after another. */
  function Emitted(lookups: seq<NftLookup>): seq<Media>
  {
    if |lookups| == 0 then []
    else Emitted(lookups[..|lookups| - 1]) + Outcome(lookups[|lookups| - 1]).emitted.ToSeq()
  }

  /** The media saved to the local store while processing `lookups`, in order. */
  function Saved(lookups: seq<NftLookup>): seq<Media>
  {
    if |lookups| == 0 then []
    else Saved(lookups[..|lookups| - 1]) + Outcome(lookups[|lookups| - 1]).saved.ToSeq()
  }

  /** Whether some lookup for this NFT succeeded. */
  predicate Resolved(lookup: NftLookup)
  {
    lookup.local.Some? || lookup.marketplace.Some?
  }

  /** `loadMediaData`, each NFT processed in turn: push the merged entry, if
      any, and record the save, if any. */
  method LoadMediaData(lookups: seq<NftLookup>) returns (media: seq<Media>, saves: seq<Media>)
    ensures media == Emitted(lookups)
    ensures saves == Saved(lookups)
  {
    media, saves := [], [];
    var i := 0;
    while i < |lookups|
      invariant 0 <= i <= |lookups|
      invariant media == Emitted(lookups[..i])
      invariant saves == Saved(lookups[..i])
    {
      assert lookups[..i + 1][..i] == lookups[..i];
      var nft := lookups[i];
      if nft.local.Some? {
        if nft.marketplace.Some? {
          saves := saves + [nft.marketplace.value.installData];
          media := media + [nft.marketplace.value.installData];
        } else {
          media := media + [nft.local.value.media];
        }
      } else if nft.marketplace.Some? {
        media := media + [nft.marketplace.value.installData];
        saves := saves + [nft.marketplace.value.installData];
      }
      i := i + 1;
    }
    assert lookups[..i] == lookups;
  }

  /** Each NFT's contribution is appended after the earlier ones': the list is
      a concatenation, never a merge by product id. */
  lemma {:induction false} EmittedAppend(a: seq<NftLookup>, b: seq<NftLookup>)
    ensures Emitted(a + b) == Emitted(a) + Emitted(b)
    ensures Saved(a + b) == Saved(a) + Saved(b)
  {
    if |b| == 0 {
      assert a + b == a;
    } else {
      var init, last := b[..|b| - 1], b[|b| - 1];
      assert (a + b)[..|a + b| - 1] == a + init;
      assert (a + b)[|a + b| - 1] == last;
      EmittedAppend(a, init);
      calc {
        Emitted(a + b);
        Emitted(a + init) + Outcome(last).emitted.ToSeq();
        Emitted(a) + (Emitted(init) + Outcome(last).emitted.ToSeq());
      }
      calc {
        Saved(a + b);
        Saved(a + init) + Outcome(last).saved.ToSeq();
        Saved(a) + (Saved(init) + Outcome(last).saved.ToSeq());
      }
    }
  }

  /** Each NFT contributes at most one entry and at most one save, and an NFT
      is dropped exactly when neither lookup succeeded. */
  lemma {:induction false} EmittedLength(lookups: seq<NftLookup>)
    ensures |Saved(lookups)| <= |Emitted(lookups)| <= |lookups|
    ensures |Emitted(lookups)| == |lookups| <==> forall i | 0 <= i < |lookups| :: Resolved(lookups[i])
  {
    if |lookups| > 0 {
      var init := lookups[..|lookups| - 1];
      EmittedLength(init);
      assert forall i | 0 <= i < |init| :: init[i] == lookups[i];
    }
  }

  /** Everything saved is also shown. */
  lemma {:induction false} SavedAreEmitted(lookups: seq<NftLookup>)
    ensures multiset(Saved(lookups)) <= multiset(Emitted(lookups))
  {
    if |lookups| > 0 {
      SavedAreEmitted(lookups[..|lookups| - 1]);
    }
  }

  /** Every entry shown is the merged record of some NFT. */
  lemma {:induction false} EmittedComesFromLookup(lookups: seq<NftLookup>, k: nat)
    requires k < |Emitted(lookups)|
    ensures exists i | 0 <= i < |lookups| :: Outcome(lookups[i]).emitted == Some(Emitted(lookups)[k])
  {
    var init := lookups[..|lookups| - 1];
    if k < |Emitted(init)| {
      EmittedComesFromLookup(init, k);
      var i :| 0 <= i < |init| && Outcome(init[i]).emitted == Some(Emitted(init)[k]);
      assert init[i] == lookups[i];
    } else {
      assert Outcome(lookups[|lookups| - 1]).emitted == Some(Emitted(lookups)[k]);
    }
  }

  /** Two NFTs of the same product are both shown, and a marketplace record is
      saved once per NFT: there is no de-duplication by product id. */
  lemma DuplicateProductsAreKept(x: NftLookup, y: NftLookup)
    requires x.productId == y.productId && x.marketplace.Some? && y.marketplace.Some?
    ensures Emitted([x, y]) == [x.marketplace.value.installData, y.marketplace.value.installData]
    ensures Saved([x, y]) == Emitted([x, y])
  {
    assert [x, y][..1] == [x];
    assert [x][..0] == [];
    assert Emitted([x]) == [x.marketplace.value.installData];
    assert Saved([x]) == [x.marketplace.value.installData];
  }

  /** Illustration of `Merge`'s contract: a product known only to the
      marketplace is shown and saved exactly once (first sync). */
  lemma FirstSync(productId: string, remote: Media)
    ensures var lookups := [NftLookup(productId, None, Some(InstallData(remote)))];
      Emitted(lookups) == [remote] && Saved(lookups) == [remote]
  {
    var lookups := [NftLookup(productId, None, Some(InstallData(remote)))];
    assert lookups[..0] == [];
  }

  // ---------------------------------------------------------------------------
  // The fetch run once the wallet session is acknowledged
  // ---------------------------------------------------------------------------

  /** The lookups made for `nfts`, one per NFT, in order. */
  function LookUpAll(nfts: seq<NftInfo>, lookUp: NftInfo -> NftLookup): (r: seq<NftLookup>)
    ensures |r| == |nfts|
  {
    seq(|nfts|, i requires 0 <= i < |nfts| => lookUp(nfts[i]))
  }

  /** The effect that fills the grid: when the session is acknowledged, load
      the NFTs, look each one up and merge; the search results are then set to
      the merged list. Otherwise nothing happens. `lookUp` stands for the
      metadata fetch and the two record lookups of one NFT. */
  method FetchSearchResults(acknowledged: bool, wallets: seq<WalletInfo>,
                            getNfts: seq<int> -> seq<NftListEntry>, lookUp: NftInfo -> NftLookup)
    returns (searchResults: Option<seq<Media>>, saves: seq<Media>)
    ensures !acknowledged ==> searchResults == None && saves == []
    ensures acknowledged ==>
      var lookups := LookUpAll(Flatten(getNfts(NftWalletIds(wallets))), lookUp);
      searchResults == Some(Emitted(lookups)) && saves == Saved(lookups)
    ensures acknowledged ==>
      searchResults.Some? && |searchResults.value| <= TotalLength(getNfts(NftWalletIds(wallets)))
  {
    searchResults, saves := None, [];
    if acknowledged {
      var walletIds, nfts := LoadNfts(wallets, getNfts);
      var lookups := LookUpAll(nfts, lookUp);
      var media;
      media, saves := LoadMediaData(lookups);
      EmittedLength(lookups);
      FlattenLength(getNfts(walletIds));
      searchResults := Some(media);
    }
  }

  // ---------------------------------------------------------------------------
  // Connecting
  // ---------------------------------------------------------------------------

  /** A known wallet pairing. */
  datatype Pairing = Pairing(topic: string)

  /** What pressing "connect" does: throw because the client is missing,
      connect (to an existing pairing's topic, or afresh), or nothing because
      choosing among several pairings is not implemented. */
  datatype ConnectAction = NotInitialized | Connect(topic: Option<string>) | PairingModalMissing

  /** `onConnect`: decided by whether the client exists and by the number of pairings. */
  function OnConnect(clientInitialized: bool, pairings: seq<Pairing>): (r: ConnectAction)
    ensures r.NotInitialized? <==> !clientInitialized
    ensures r.Connect? <==> clientInitialized && |pairings| <= 1
    ensures r.PairingModalMissing? <==> clientInitialized && |pairings| > 1
    ensures r.Connect? ==> (r.topic.Some? <==> |pairings| == 1)
    ensures r.Connect? && r.topic.Some? ==> r.topic.value == pairings[0].topic
  {
    if !clientInitialized then NotInitialized
    else if |pairings| == 1 then Connect(Some(pairings[0].topic))
    else if |pairings| > 0 then PairingModalMissing
    else Connect(None)
  }
}
