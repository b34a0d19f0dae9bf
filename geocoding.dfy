/**
 * The geocoding layer of the web application (`web-app/src/utils/geocoding.js`):
 * a cache from normalised address to coordinates, kept for the life of the
 * page, in front of an external geocoding service, and the batched geocoding
 * of a list of records.
 *
 * The service is a function from the normalised address to its coordinates,
 * `None` standing for an empty answer or a thrown error. The requests it
 * receives are recorded in a ghost log, so that the purpose of the cache (no
 * address that resolved is sent twice) can be stated. The waits between
 * batches are counted instead of performed.
 */
module Geocoding {
  import opened Wrappers
  import opened Seqs
  import opened CrimeData

  /** Latitude and longitude as the service returns them. */
  datatype Coord = Coord(lat: real, lng: real)

  /** A record with the `coordinates` field the batch adds; `None` is `null`. */
  datatype Located = Located(crime: Crime, coordinates: Option<Coord>)

  const BatchSize: nat := 10
  const DelayMs: nat := 200

  /** The module's `geocodeCache` together with the service it fronts. */
  class GeocodeCache {
    var entries: map<string, Coord>
    ghost var requests: seq<string>
    const service: string -> Option<Coord>
    /** The cache key of an address: `normalizeLocation`. */
    const keyOf: string -> string

    /** Every entry is what the service answered for its key; every key that
        was sent and resolved is cached; so no key that resolves was ever sent
        more than once. */
    ghost predicate Valid()
      reads this
    {
      && (forall key :: key in entries ==> service(key) == Some(entries[key]))
      && (forall i :: 0 <= i < |requests| && service(requests[i]).Some? ==> requests[i] in entries)
      && (forall key :: service(key).Some? ==> multiset(requests)[key] <= 1)
    }

    constructor (service: string -> Option<Coord>)
      ensures this.service == service && keyOf == NormalizeLocation
      ensures entries == map[] && requests == []
      ensures Valid()
    {
      this.service := service;
      keyOf := NormalizeLocation;
      entries := map[];
      requests := [];
    }

    /** The answer the cache gives for `address`: always the service's answer
        for its normalised form. */
    function Lookup(address: string): (r: Option<Coord>)
      reads this
      requires Valid()
      ensures r == service(keyOf(address))
    {
      var key := keyOf(address);
      if key in entries then Some(entries[key]) else service(key)
    }

    /** The lookup for a normalised key: a cached key is answered without a
        request; otherwise the key is sent, and only a success is stored. */
    method GeocodeKey(key: string) returns (coords: Option<Coord>)
      requires Valid()
      modifies this
      ensures Valid()
      ensures coords == service(key)
      ensures if key in old(entries) then
                entries == old(entries) && requests == old(requests)
              else
                && requests == old(requests) + [key]
                && entries == (if coords.Some? then old(entries)[key := coords.value] else old(entries))
    {
      if key in entries {
        coords := Some(entries[key]);
        return;
      }
      coords := service(key);
      ghost var before := requests;
      assert coords.Some? ==> multiset(before)[key] == 0;
      requests := requests + [key];
      if coords.Some? {
        entries := entries[key := coords.value];
      }
      assert multiset(requests) == multiset(before) + multiset{key};
      assert forall i :: 0 <= i < |before| ==> requests[i] == before[i];
    }

    /** `geocodeAddress`: the cache key is the normalised address. */
    method GeocodeAddress(address: string) returns (coords: Option<Coord>)
      requires Valid()
      modifies this
      ensures Valid()
      ensures coords == service(keyOf(address))
      ensures var key := keyOf(address);
              if key in old(entries) then
                entries == old(entries) && requests == old(requests)
              else
                && requests == old(requests) + [key]
                && entries == (if coords.Some? then old(entries)[key := coords.value] else old(entries))
    {
      coords := GeocodeKey(keyOf(address));
    }

    /** A record as the batch leaves it, with the service's answer for its
        location. */
    function Locate(crime: Crime): Located
    {
      Located(crime, service(keyOf(crime.raw.location)))
    }

    /** The list the batches accumulate: every record, in input order, with its
        coordinates. */
    function Geocoded(crimes: seq<Crime>): (r: seq<Located>)
      ensures |r| == |crimes|
      ensures forall i :: 0 <= i < |crimes| ==> r[i].crime == crimes[i]
    {
      seq(|crimes|, i requires 0 <= i < |crimes| => Locate(crimes[i]))
    }

    /** The cache keys of the records' locations. */
    function KeysOf(crimes: seq<Crime>): set<string> {
      set c | c in crimes :: keyOf(c.raw.location)
    }

    /** The cache keys of the records' locations that the service resolves. */
    function ResolvedKeys(crimes: seq<Crime>): set<string> {
      set c | c in crimes && service(keyOf(c.raw.location)).Some? :: keyOf(c.raw.location)
    }

    /** How the cache and the log move from (e0, r0) to (e1, r1) while the
        records with keys `keys` are geocoded, `resolved` of them resolving:
        every entry stays with its value, the entries added are exactly the
        resolved keys, the log only grows, and the keys sent are exactly the
        keys that were not cached at the start. */
    ghost predicate Grown(e0: map<string, Coord>, r0: seq<string>, e1: map<string, Coord>, r1: seq<string>,
                          keys: set<string>, resolved: set<string>)
    {
      && (forall k :: k in e0 ==> k in e1 && e1[k] == e0[k])
      && e1.Keys == e0.Keys + resolved
      && r0 <= r1
      && (forall k :: k in r1[|r0|..] <==> k in keys && k !in e0)
    }

    /** One batch: every record of `batch` geocoded in turn, in order. The
        cache only grows, by the batch's keys that resolve; the keys sent are
        exactly the batch's keys that were not cached before. */
    method GeocodeBatch(batch: seq<Crime>) returns (located: seq<Located>)
      requires Valid()
      modifies this
      ensures Valid()
      ensures located == Geocoded(batch)
      ensures Grown(old(entries), old(requests), entries, requests, KeysOf(batch), ResolvedKeys(batch))
    {
      located := [];
      var j := 0;
      while j < |batch|
        invariant Valid()
        invariant j <= |batch|
        invariant located == Geocoded(batch[..j])
        invariant Grown(old(entries), old(requests), entries, requests, KeysOf(batch[..j]), ResolvedKeys(batch[..j]))
      {
        ghost var e1, r1 := entries, requests;
        var coords := GeocodeAddress(batch[j].raw.location);
        KeysNext(batch, j);
        KeysOfResolved(batch[..j]);
        GrownStep(old(entries), old(requests), e1, r1, entries, requests,
                  KeysOf(batch[..j]), ResolvedKeys(batch[..j]), keyOf(batch[j].raw.location));
        GeocodedNext(batch, j);
        located := located + [Located(batch[j], coords)];
        j := j + 1;
      }
      assert batch[..j] == batch;
    }

    /** One lookup of `key` keeps `Grown`, with `key` added to the keys and,
        when it resolves, to the resolved keys. */
    lemma GrownStep(e0: map<string, Coord>, r0: seq<string>, e1: map<string, Coord>, r1: seq<string>,
                    e2: map<string, Coord>, r2: seq<string>, keys: set<string>, resolved: set<string>, key: string)
      requires Grown(e0, r0, e1, r1, keys, resolved) && resolved <= keys
      requires forall k :: k in e1 ==> service(k).Some?
      requires if key in e1 then e2 == e1 && r2 == r1
               else && r2 == r1 + [key]
                    && e2 == (if service(key).Some? then e1[key := service(key).value] else e1)
      ensures Grown(e0, r0, e2, r2, keys + {key}, resolved + (if service(key).Some? then {key} else {}))
    {
      if key !in e1 {
        assert r2[|r0|..] == r1[|r0|..] + [key];
      }
    }

    /** Two runs one after the other make one run over the union of their keys. */
    lemma GrownTrans(e0: map<string, Coord>, r0: seq<string>, e1: map<string, Coord>, r1: seq<string>,
                     e2: map<string, Coord>, r2: seq<string>,
                     keys1: set<string>, resolved1: set<string>, keys2: set<string>, resolved2: set<string>)
      requires Grown(e0, r0, e1, r1, keys1, resolved1) && resolved1 <= keys1
      requires Grown(e1, r1, e2, r2, keys2, resolved2)
      ensures Grown(e0, r0, e2, r2, keys1 + keys2, resolved1 + resolved2)
    {
      assert r2[|r0|..] == r1[|r0|..] + r2[|r1|..];
    }

    /** One more record adds its key, and its key among the resolved ones when
        the service resolves it. */
    lemma KeysNext(crimes: seq<Crime>, j: nat)
      requires j < |crimes|
      ensures var key := keyOf(crimes[j].raw.location);
              && KeysOf(crimes[..j + 1]) == KeysOf(crimes[..j]) + {key}
              && ResolvedKeys(crimes[..j + 1])
                   == ResolvedKeys(crimes[..j]) + (if service(key).Some? then {key} else {})
    {
      assert crimes[..j + 1] == crimes[..j] + [crimes[j]];
    }

    lemma KeysOfResolved(crimes: seq<Crime>)
      ensures ResolvedKeys(crimes) <= KeysOf(crimes)
    {
    }

    /** The keys of two consecutive slices are the keys of the slice they make up. */
    lemma KeysPrefix(crimes: seq<Crime>, i: nat, stop: nat)
      requires i <= stop <= |crimes|
      ensures KeysOf(crimes[..i]) + KeysOf(crimes[i..stop]) == KeysOf(crimes[..stop])
      ensures ResolvedKeys(crimes[..i]) + ResolvedKeys(crimes[i..stop]) == ResolvedKeys(crimes[..stop])
    {
      assert crimes[..i] + crimes[i..stop] == crimes[..stop];
    }

    /** `geocodeCrimes`: slices of `BatchSize` records are geocoded one after
        the other, with a wait only between two batches; the records that got
        no coordinates are dropped. */
    method GeocodeCrimes(crimes: seq<Crime>) returns (result: seq<Located>, delays: nat)
      requires Valid()
      modifies this
      ensures Valid()
      ensures result == Filter(Geocoded(crimes), Resolved)
      ensures delays == if |crimes| == 0 then 0 else (|crimes| + BatchSize - 1) / BatchSize - 1
      ensures Grown(old(entries), old(requests), entries, requests, KeysOf(crimes), ResolvedKeys(crimes))
    {
      var located: seq<Located> := [];
      var i, batches := 0, 0;
      ghost var done := 0;
      delays := 0;
      while i < |crimes|
        invariant Valid()
        invariant i == batches * BatchSize && (batches == 0 || (batches - 1) * BatchSize < |crimes|)
        invariant done == if i < |crimes| then i else |crimes|
        invariant located == Geocoded(crimes[..done])
        invariant delays == if batches == 0 then 0 else if i < |crimes| then batches else batches - 1
        invariant Grown(old(entries), old(requests), entries, requests, KeysOf(crimes[..done]), ResolvedKeys(crimes[..done]))
        decreases |crimes| - i
      {
        var stop := if i + BatchSize < |crimes| then i + BatchSize else |crimes|;
        ghost var e1, r1 := entries, requests;
        var batch := GeocodeBatch(crimes[i..stop]);
        KeysPrefix(crimes, i, stop);
        KeysOfResolved(crimes[..i]);
        GrownTrans(old(entries), old(requests), e1, r1, entries, requests,
                   KeysOf(crimes[..i]), ResolvedKeys(crimes[..i]), KeysOf(crimes[i..stop]), ResolvedKeys(crimes[i..stop]));
        GeocodedPrefix(crimes, i, stop);
        located := located + batch;
        if i + BatchSize < |crimes| {
          delays := delays + 1;
        }
        i, batches, done := i + BatchSize, batches + 1, stop;
      }
      assert crimes[..|crimes|] == crimes;
      if batches > 0 {
        CeilBatches(|crimes|, batches);
      }
      result := Filter(located, Resolved);
    }

    lemma GeocodedAppend(a: seq<Crime>, b: seq<Crime>)
      ensures Geocoded(a + b) == Geocoded(a) + Geocoded(b)
    {
    }

    /** One more record adds its own lookup. */
    lemma GeocodedNext(crimes: seq<Crime>, j: nat)
      requires j < |crimes|
      ensures Geocoded(crimes[..j + 1]) == Geocoded(crimes[..j]) + [Locate(crimes[j])]
    {
      GeocodedAppend(crimes[..j], [crimes[j]]);
      assert crimes[..j] + [crimes[j]] == crimes[..j + 1];
    }

    /** The records before `i` and those of the batch from `i` to `stop`
        together are the records before `stop`. */
    lemma GeocodedPrefix(crimes: seq<Crime>, i: nat, stop: nat)
      requires i <= stop <= |crimes|
      ensures Geocoded(crimes[..i]) + Geocoded(crimes[i..stop]) == Geocoded(crimes[..stop])
    {
      GeocodedAppend(crimes[..i], crimes[i..stop]);
      assert crimes[..i] + crimes[i..stop] == crimes[..stop];
    }
  }

  /** `b` batches are needed for `n` records exactly when `b` is n / 10
      rounded up. */
  lemma CeilBatches(n: nat, b: nat)
    requires b > 0 && (b - 1) * BatchSize < n <= b * BatchSize
    ensures (n + BatchSize - 1) / BatchSize == b
  {
  }

  predicate Resolved(l: Located) {
    l.coordinates.Some?
  }

  /** The result keeps, in input order, exactly the records that got
      coordinates. */
  lemma ResolvedSpec(located: seq<Located>, l: Located)
    ensures IsSubsequence(Filter(located, Resolved), located)
    ensures multiset(Filter(located, Resolved))[l] == if l.coordinates.Some? then multiset(located)[l] else 0
  {
    FilterIsSubsequence(located, Resolved);
    FilterCounts(located, Resolved, l);
  }
}
