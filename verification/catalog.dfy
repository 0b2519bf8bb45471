/** Catalog entries: the (publisher domain, label) pairs under which map
    versions are published (`CatalogEntryModel`, model.py:148-230). The
    datastore is a map from key name to entry. */
module Catalog {
  import opened Base

  /** The fields `Put` reads from the map being published. */
  datatype MapView = MapView(id: string, title: string, currentVersion: string)

  datatype CatalogEntry = CatalogEntry(
    domain: string,
    mapLabel: string,
    created: Time,
    creatorUid: Uid,
    updated: Time,
    updaterUid: Uid,
    title: string,
    publisherName: Option<string>,
    mapId: string,
    mapVersion: string,
    isListed: bool)

  /** The datastore's `CatalogEntryModel` entities by key name. */
  type CatalogStore = map<string, CatalogEntry>

  /** The key name of the entry for label `mapLabel` in `domain`. */
  function CatalogKey(domain: string, mapLabel: string): (k: string)
    ensures |k| == |domain| + 1 + |mapLabel|
    ensures k[|domain|] == ':'
  {
    domain + ":" + mapLabel
  }

  /** Reads a key name back as (domain, mapLabel), splitting at the first `:`. */
  function SplitKey(k: string): Option<(string, string)>
  {
    var n := FirstIndex(k, ':');
    if n < |k| then Some((k[..n], k[n + 1..])) else None
  }

  /** For a domain without `:` (the only kind `Put` accepts) the key name
      determines the pair: splitting at the first `:` recovers it. */
  lemma {:induction false} SplitKeyInvertsCatalogKey(domain: string, mapLabel: string)
    requires !HasChar(domain, ':')
    ensures SplitKey(CatalogKey(domain, mapLabel)) == Some((domain, mapLabel))
  {
    var k := CatalogKey(domain, mapLabel);
    FirstIndexAt(k, ':', |domain|);
    assert k[..|domain|] == domain;
    assert k[|domain| + 1..] == mapLabel;
  }

  /** Distinct valid pairs have distinct key names. */
  lemma CatalogKeyInjective(d1: string, ml1: string, d2: string, ml2: string)
    requires !HasChar(d1, ':') && !HasChar(d2, ':')
    requires CatalogKey(d1, ml1) == CatalogKey(d2, ml2)
    ensures d1 == d2 && ml1 == ml2
  {
    JoinInjective(d1, ml1, d2, ml2, ':');
  }

  /** `CatalogEntryModel.Get`: the entity with key name `domain:mapLabel`. */
  function Get(store: CatalogStore, domain: string, mapLabel: string): (r: Option<CatalogEntry>)
    ensures r.Some? <==> CatalogKey(domain, mapLabel) in store
    ensures r.Some? ==> r.value == store[CatalogKey(domain, mapLabel)]
  {
    var k := CatalogKey(domain, mapLabel);
    if k in store then Some(store[k]) else None
  }

  /** Every entity sits under the key name built from its own domain and
      label, and that domain contains no `:`. */
  predicate WellKeyed(store: CatalogStore)
  {
    forall k :: k in store ==>
      !HasChar(store[k].domain, ':') && k == CatalogKey(store[k].domain, store[k].mapLabel)
  }

  /** In a well-keyed store, a lookup by a valid pair finds only the entry
      for that very pair. */
  lemma GetFindsOwnPair(store: CatalogStore, domain: string, mapLabel: string)
    requires WellKeyed(store) && !HasChar(domain, ':')
    requires Get(store, domain, mapLabel).Some?
    ensures Get(store, domain, mapLabel).value.domain == domain
    ensures Get(store, domain, mapLabel).value.mapLabel == mapLabel
  {
    var e := Get(store, domain, mapLabel).value;
    CatalogKeyInjective(domain, mapLabel, e.domain, e.mapLabel);
  }

  /** The new store and the entry `Put` wrote. */
  datatype Stored = Stored(store: CatalogStore, entry: CatalogEntry)

  /** `CatalogEntryModel.Put`: creates the entry or repoints an existing one
      at the map's current version. A domain containing `:` is a ValueError.
      An existing entry keeps its creation metadata and publisher name; a new
      one records this call as its creation. */
  function Put(store: CatalogStore, uid: Uid, domain: string, mapLabel: string,
               m: MapView, isListed: bool, now: Instant): (r: Result<Stored>)
    ensures r.Err? <==> HasChar(domain, ':')
    ensures r.Err? ==> r.error == ValueError
    ensures r.Ok? ==>
              var k := CatalogKey(domain, mapLabel);
              var e := r.value.entry;
              r.value.store == store[k := e]
              && e.updated == now && e.updaterUid == uid && e.title == m.title
              && e.mapId == m.id && e.mapVersion == m.currentVersion && e.isListed == isListed
              && (k in store ==> e.created == store[k].created && e.creatorUid == store[k].creatorUid
                                 && e.publisherName == store[k].publisherName
                                 && e.domain == store[k].domain && e.mapLabel == store[k].mapLabel)
              && (k !in store ==> e.created == now && e.creatorUid == uid && e.publisherName == None
                                  && e.domain == domain && e.mapLabel == mapLabel)
  {
    if HasChar(domain, ':') then Err(ValueError)
    else
      var base := match Get(store, domain, mapLabel)
        case Some(existing) => existing
        case None => CatalogEntry(domain, mapLabel, now, uid, NEVER, "", "", None, "", "", false);
      var e := base.(updated := now, updaterUid := uid, title := m.title, mapId := m.id,
                     mapVersion := m.currentVersion, isListed := isListed);
      Ok(Stored(store[CatalogKey(domain, mapLabel) := e], e))
  }

  /** After a successful `Put`, `Get` for the same pair returns the entry it
      wrote, and every other valid pair reads as before. */
  lemma PutThenGet(store: CatalogStore, uid: Uid, domain: string, mapLabel: string,
                   m: MapView, isListed: bool, now: Instant, d2: string, ml2: string)
    requires Put(store, uid, domain, mapLabel, m, isListed, now).Ok?
    requires !HasChar(d2, ':')
    ensures var s := Put(store, uid, domain, mapLabel, m, isListed, now).value;
            Get(s.store, domain, mapLabel) == Some(s.entry)
            && ((d2, ml2) != (domain, mapLabel) ==> Get(s.store, d2, ml2) == Get(store, d2, ml2))
  {
    if CatalogKey(d2, ml2) == CatalogKey(domain, mapLabel) {
      CatalogKeyInjective(d2, ml2, domain, mapLabel);
    }
  }

  /** `Put` keeps the store well keyed. */
  lemma PutPreservesWellKeyed(store: CatalogStore, uid: Uid, domain: string, mapLabel: string,
                              m: MapView, isListed: bool, now: Instant)
    requires WellKeyed(store)
    requires Put(store, uid, domain, mapLabel, m, isListed, now).Ok?
    ensures WellKeyed(Put(store, uid, domain, mapLabel, m, isListed, now).value.store)
  {
    var k := CatalogKey(domain, mapLabel);
    if k in store {
      CatalogKeyInjective(domain, mapLabel, store[k].domain, store[k].mapLabel);
    }
  }

  /** However often an entry is republished, its creation metadata is that
      of the first `Put`. */
  lemma RepublishKeepsCreation(store: CatalogStore, uid1: Uid, uid2: Uid, domain: string, mapLabel: string,
                               m1: MapView, m2: MapView, listed1: bool, listed2: bool,
                               t1: Instant, t2: Instant)
    requires CatalogKey(domain, mapLabel) !in store
    requires Put(store, uid1, domain, mapLabel, m1, listed1, t1).Ok?
    ensures var first := Put(store, uid1, domain, mapLabel, m1, listed1, t1).value;
            var second := Put(first.store, uid2, domain, mapLabel, m2, listed2, t2);
            second.Ok?
            && second.value.entry.created == t1 && second.value.entry.creatorUid == uid1
            && second.value.entry.updated == t2 && second.value.entry.updaterUid == uid2
            && second.value.entry.mapVersion == m2.currentVersion
  {
  }

  /** `CatalogEntry.DeleteByMapId`: removes every entry that points at the
      map. */
  function DeleteByMapId(store: CatalogStore, mapId: string): (r: CatalogStore)
    ensures forall k :: k in r <==> k in store && store[k].mapId != mapId
    ensures forall k :: k in r ==> r[k] == store[k]
  {
    map k | k in store && store[k].mapId != mapId :: store[k]
  }
}
