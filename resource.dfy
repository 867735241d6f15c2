/**
 * The resource base: the load protocol (BeginLoad, then EndLoad only if that succeeded,
 * with the asynchronous-load state around it), the defaults of the overridable steps,
 * memory use and the use timer; and resources with metadata, a map from name hashes to
 * values kept together with the list of names in insertion order. The string hash is a
 * parameter of the metadata holder.
 */
module Resource {
  datatype AsyncLoadState = AsyncDone | AsyncQueued | AsyncLoading | AsyncSuccess | AsyncFail

  class Resource {
    var name: string
    var memoryUse: nat
    var asyncLoadState: AsyncLoadState
    /** The clock reading (milliseconds) when the use timer was last reset. */
    var useTimerStart: nat

    constructor()
      ensures name == "" && memoryUse == 0 && asyncLoadState == AsyncDone && useTimerStart == 0
    {
      name := "";
      memoryUse := 0;
      asyncLoadState := AsyncDone;
      useTimerStart := 0;
    }

    /**
     * Load: BeginLoad (outcome `beginOk`), then EndLoad (outcome `endOk`) only if BeginLoad
     * succeeded. Returns the result, whether EndLoad ran, and the asynchronous-load state the
     * steps saw: loading when called off the main thread.
     */
    method Load(mainThread: bool, beginOk: bool, endOk: bool) returns (success: bool, endLoadCalled: bool, stateDuringLoad: AsyncLoadState)
      modifies this`asyncLoadState
      ensures success <==> beginOk && endOk
      ensures endLoadCalled <==> beginOk
      ensures stateDuringLoad == if mainThread then AsyncDone else AsyncLoading
      ensures asyncLoadState == AsyncDone
    {
      SetAsyncLoadState(if mainThread then AsyncDone else AsyncLoading);
      stateDuringLoad := asyncLoadState;
      success := beginOk;
      endLoadCalled := false;
      if success {
        endLoadCalled := true;
        success := success && endOk;
      }
      SetAsyncLoadState(AsyncDone);
    }

    method SetAsyncLoadState(newState: AsyncLoadState)
      modifies this`asyncLoadState
      ensures asyncLoadState == newState
    {
      asyncLoadState := newState;
    }

    /** The base BeginLoad: always overridden, so it fails. */
    method BeginLoad() returns (ok: bool)
      ensures !ok
    {
      return false;
    }

    /** The base EndLoad: no upload step, so it succeeds. */
    method EndLoad() returns (ok: bool)
      ensures ok
    {
      return true;
    }

    /** The base Save: not supported. */
    method Save() returns (ok: bool)
      ensures !ok
    {
      return false;
    }

    /** LoadFile: open the file (`openOk`), then Load. */
    method LoadFile(openOk: bool, mainThread: bool, beginOk: bool, endOk: bool) returns (ok: bool)
      modifies this`asyncLoadState
      ensures ok <==> openOk && beginOk && endOk
      ensures openOk ==> asyncLoadState == AsyncDone
      ensures !openOk ==> asyncLoadState == old(asyncLoadState)
    {
      if !openOk {
        return false;
      }
      var endCalled, seen;
      ok, endCalled, seen := Load(mainThread, beginOk, endOk);
    }

    /** SaveFile with the base Save: fails whether or not the file opens. */
    method SaveFile(openOk: bool) returns (ok: bool)
      ensures !ok
    {
      if !openOk {
        return false;
      }
      ok := Save();
    }

    method SetName(newName: string)
      modifies this`name
      ensures name == newName
    {
      name := newName;
    }

    /** SetMemoryUse: the size must not be negative. */
    method SetMemoryUse(size: int)
      requires size >= 0
      modifies this`memoryUse
      ensures memoryUse == size
    {
      memoryUse := size;
    }

    method ResetUseTimer(now: nat)
      modifies this`useTimerStart
      ensures useTimerStart == now
    {
      useTimerStart := now;
    }

    /**
     * GetUseTimer at clock reading `now` with `refs` references: 0, restarting the timer, while
     * anything besides the cache holds the resource; otherwise the time since the last reset.
     */
    method GetUseTimer(refs: nat, now: nat) returns (elapsed: nat)
      requires now >= useTimerStart
      modifies this`useTimerStart
      ensures refs > 1 ==> elapsed == 0 && useTimerStart == now
      ensures refs <= 1 ==> elapsed == now - useTimerStart && useTimerStart == old(useTimerStart)
    {
      if refs > 1 {
        useTimerStart := now;
        return 0;
      }
      return now - useTimerStart;
    }
  }

  // ---------------------------------------------------------------------------
  // Metadata

  /** A metadata value; `Empty` is Variant::EMPTY, any other value is told apart by its content. */
  datatype Variant = Empty | Value(content: string)

  /** The names' hashes, in order. */
  function Hashes(hash: string -> nat, keys: seq<string>): set<nat>
  {
    set k | k in keys :: hash(k)
  }

  /** No two names in the list share a hash. */
  predicate DistinctHashes(hash: string -> nat, keys: seq<string>)
  {
    forall i, j :: 0 <= i < j < |keys| ==> hash(keys[i]) != hash(keys[j])
  }

  /** The map holds one entry per listed name, under its hash, and the names' hashes differ. */
  predicate Consistent(hash: string -> nat, metadata: map<nat, Variant>, keys: seq<string>)
  {
    metadata.Keys == Hashes(hash, keys) && DistinctHashes(hash, keys)
  }

  /** The position of the first occurrence of `x` in `s`. */
  function FirstIndex(s: seq<string>, x: string): (i: nat)
    requires x in s
    ensures i < |s| && s[i] == x && x !in s[..i]
  {
    if s[0] == x then 0
    else
      var j := FirstIndex(s[1..], x);
      assert s[..j + 1] == [s[0]] + s[1..][..j];
      j + 1
  }

  /** Vector::Remove: the sequence without the first occurrence of `x`, unchanged when there is none. */
  function RemoveFirst(s: seq<string>, x: string): (r: seq<string>)
    ensures x !in s ==> r == s
    ensures x in s ==> |r| == |s| - 1
  {
    if x in s then s[..FirstIndex(s, x)] + s[FirstIndex(s, x) + 1..] else s
  }

  /** The state after AddMetadata: the value stored under the hash, the name listed if the hash is new. */
  function Added(hash: string -> nat, metadata: map<nat, Variant>, keys: seq<string>, name: string, value: Variant)
    : (map<nat, Variant>, seq<string>)
  {
    (metadata[hash(name) := value], if hash(name) in metadata then keys else keys + [name])
  }

  /** The state after adding the entries in order (LoadMetadataFromXML, LoadMetadataFromJSON). */
  function AddedAll(hash: string -> nat, metadata: map<nat, Variant>, keys: seq<string>, entries: seq<(string, Variant)>)
    : (map<nat, Variant>, seq<string>)
  {
    if entries == [] then (metadata, keys)
    else
      var prev := AddedAll(hash, metadata, keys, entries[..|entries| - 1]);
      var e := entries[|entries| - 1];
      Added(hash, prev.0, prev.1, e.0, e.1)
  }

  /** GetMetadata: the value under the name's hash, Variant::EMPTY when there is none. */
  function Lookup(hash: string -> nat, metadata: map<nat, Variant>, name: string): Variant
  {
    if hash(name) in metadata then metadata[hash(name)] else Empty
  }

  /** The (name, value) pairs SaveMetadataToXML writes, in key-list order. */
  function Saved(hash: string -> nat, metadata: map<nat, Variant>, keys: seq<string>): (r: seq<(string, Variant)>)
    ensures |r| == |keys|
    ensures forall i :: 0 <= i < |keys| ==> r[i] == (keys[i], Lookup(hash, metadata, keys[i]))
  {
    seq(|keys|, i requires 0 <= i < |keys| => (keys[i], Lookup(hash, metadata, keys[i])))
  }

  /** Adding keeps the map and the name list consistent. */
  lemma AddedConsistent(hash: string -> nat, metadata: map<nat, Variant>, keys: seq<string>, name: string, value: Variant)
    requires Consistent(hash, metadata, keys)
    ensures Consistent(hash, Added(hash, metadata, keys, name, value).0, Added(hash, metadata, keys, name, value).1)
  {
    if hash(name) !in metadata {
      var keys' := keys + [name];
      assert Hashes(hash, keys') == Hashes(hash, keys) + {hash(name)} by {
        assert forall k :: k in keys' <==> k in keys || k == name;
      }
      forall i, j | 0 <= i < j < |keys'|
        ensures hash(keys'[i]) != hash(keys'[j])
      {
        if j == |keys| {
          assert keys'[i] in keys;
        }
      }
    }
  }

  /** The list without its i-th name: the names before it, then the names after it, shifted down. */
  lemma RemovedAt(keys: seq<string>, i: nat, j: nat)
    requires i < |keys| && j < |keys| - 1
    ensures (keys[..i] + keys[i + 1..])[j] == keys[if j < i then j else j + 1]
  {
  }

  /** Removing a name from a list of distinct hashes leaves the hashes distinct. */
  lemma RemovedDistinct(hash: string -> nat, keys: seq<string>, name: string)
    requires DistinctHashes(hash, keys) && name in keys
    ensures DistinctHashes(hash, RemoveFirst(keys, name))
  {
    var i := FirstIndex(keys, name);
    var r := RemoveFirst(keys, name);
    forall a, b | 0 <= a < b < |r|
      ensures hash(r[a]) != hash(r[b])
    {
      RemovedAt(keys, i, a);
      RemovedAt(keys, i, b);
    }
  }

  /** The hash of the j-th listed name is among the list's hashes. */
  lemma InHashes(hash: string -> nat, keys: seq<string>, j: nat)
    requires j < |keys|
    ensures hash(keys[j]) in Hashes(hash, keys)
  {
    assert keys[j] in keys;
  }

  /** Every hash of the list is the hash of some position in it. */
  lemma HashPosition(hash: string -> nat, keys: seq<string>, h: nat) returns (j: nat)
    requires h in Hashes(hash, keys)
    ensures j < |keys| && hash(keys[j]) == h
  {
    var k :| k in keys && hash(k) == h;
    j :| 0 <= j < |keys| && keys[j] == k;
  }

  /** A hash of the list other than the removed name's stays in the list after the removal. */
  lemma RemovedKeepsHash(hash: string -> nat, keys: seq<string>, name: string, h: nat)
    requires name in keys && h in Hashes(hash, keys) && h != hash(name)
    ensures h in Hashes(hash, RemoveFirst(keys, name))
  {
    var i := FirstIndex(keys, name);
    var j := HashPosition(hash, keys, h);
    assert j != i;
    var j' := if j < i then j else j - 1;
    RemovedAt(keys, i, j');
    InHashes(hash, RemoveFirst(keys, name), j');
  }

  /** A hash left after the removal was in the list, and differs from the removed name's when hashes are distinct. */
  lemma RemovedHashFrom(hash: string -> nat, keys: seq<string>, name: string, h: nat)
    requires DistinctHashes(hash, keys) && name in keys && h in Hashes(hash, RemoveFirst(keys, name))
    ensures h in Hashes(hash, keys) && h != hash(name)
  {
    var i := FirstIndex(keys, name);
    var j := HashPosition(hash, RemoveFirst(keys, name), h);
    RemovedAt(keys, i, j);
    var j' := if j < i then j else j + 1;
    InHashes(hash, keys, j');
    assert j' != i;
  }

  /** Removing a name whose hash no other listed name shares removes exactly that hash. */
  lemma RemovedHashes(hash: string -> nat, keys: seq<string>, name: string)
    requires DistinctHashes(hash, keys) && name in keys
    ensures Hashes(hash, RemoveFirst(keys, name)) == Hashes(hash, keys) - {hash(name)}
  {
    forall h | h in Hashes(hash, keys) - {hash(name)}
      ensures h in Hashes(hash, RemoveFirst(keys, name))
    {
      RemovedKeepsHash(hash, keys, name, h);
    }
    forall h | h in Hashes(hash, RemoveFirst(keys, name))
      ensures h in Hashes(hash, keys) - {hash(name)}
    {
      RemovedHashFrom(hash, keys, name, h);
    }
  }

  /** Removing a listed name keeps the map and the name list consistent. */
  lemma RemovedConsistent(hash: string -> nat, metadata: map<nat, Variant>, keys: seq<string>, name: string)
    requires Consistent(hash, metadata, keys) && name in keys
    ensures Consistent(hash, metadata - {hash(name)}, RemoveFirst(keys, name))
  {
    RemovedDistinct(hash, keys, name);
    RemovedHashes(hash, keys, name);
  }

  /** The entries of `metadata` under the given hashes. */
  function Restricted(metadata: map<nat, Variant>, hashes: set<nat>): map<nat, Variant>
  {
    map h | h in hashes && h in metadata :: metadata[h]
  }

  /** The hashes of the first `n` names are those of the first `n - 1` and a new one. */
  lemma PrefixHashesSnoc(hash: string -> nat, keys: seq<string>, n: nat)
    requires DistinctHashes(hash, keys) && 0 < n <= |keys|
    ensures hash(keys[n - 1]) !in Hashes(hash, keys[..n - 1])
    ensures Hashes(hash, keys[..n]) == Hashes(hash, keys[..n - 1]) + {hash(keys[n - 1])}
    ensures keys[..n] == keys[..n - 1] + [keys[n - 1]]
  {
    forall k | k in keys[..n - 1]
      ensures hash(k) != hash(keys[n - 1])
    {
      var j :| 0 <= j < n - 1 && keys[..n - 1][j] == k;
      assert keys[j] == k;
    }
    assert keys[..n] == keys[..n - 1] + [keys[n - 1]];
    assert forall k :: k in keys[..n] <==> k in keys[..n - 1] || k == keys[n - 1];
  }

  /** Loading the saved pairs into an empty holder gives the map restricted to the first `n` names, and those names. */
  lemma {:induction false} SavedPrefixRoundTrip(hash: string -> nat, metadata: map<nat, Variant>, keys: seq<string>, n: nat)
    requires Consistent(hash, metadata, keys) && n <= |keys|
    ensures AddedAll(hash, map[], [], Saved(hash, metadata, keys)[..n]) ==
            (Restricted(metadata, Hashes(hash, keys[..n])), keys[..n])
  {
    if n == 0 {
      assert Hashes(hash, keys[..0]) == {};
    } else {
      SavedPrefixRoundTrip(hash, metadata, keys, n - 1);
      SavedPrefixSnoc(hash, metadata, keys, n);
      PrefixHashesSnoc(hash, keys, n);
      AddedRestricted(hash, metadata, Hashes(hash, keys[..n - 1]), keys[..n - 1], keys[n - 1]);
    }
  }

  /** Loading one more saved pair adds the next listed name with its stored value. */
  lemma SavedPrefixSnoc(hash: string -> nat, metadata: map<nat, Variant>, keys: seq<string>, n: nat)
    requires Consistent(hash, metadata, keys) && 0 < n <= |keys|
    ensures hash(keys[n - 1]) in metadata
    ensures var prev := AddedAll(hash, map[], [], Saved(hash, metadata, keys)[..n - 1]);
            AddedAll(hash, map[], [], Saved(hash, metadata, keys)[..n]) ==
              Added(hash, prev.0, prev.1, keys[n - 1], metadata[hash(keys[n - 1])])
  {
    var saved := Saved(hash, metadata, keys);
    assert saved[..n][..n - 1] == saved[..n - 1];
    InHashes(hash, keys, n - 1);
    assert saved[..n][n - 1] == (keys[n - 1], metadata[hash(keys[n - 1])]);
  }

  /** Adding a name with a new hash and its stored value to a restricted map restricts to one more hash. */
  lemma AddedRestricted(hash: string -> nat, metadata: map<nat, Variant>, hashes: set<nat>, names: seq<string>, name: string)
    requires hash(name) in metadata && hash(name) !in hashes
    ensures Added(hash, Restricted(metadata, hashes), names, name, metadata[hash(name)]) ==
            (Restricted(metadata, hashes + {hash(name)}), names + [name])
  {
    var h := hash(name);
    assert h !in Restricted(metadata, hashes);
    assert Restricted(metadata, hashes + {h}) == Restricted(metadata, hashes)[h := metadata[h]];
  }

  /** Saving the metadata and loading it into an empty holder gives back the map and the key order. */
  lemma SaveLoadRoundTrip(hash: string -> nat, metadata: map<nat, Variant>, keys: seq<string>)
    requires Consistent(hash, metadata, keys)
    ensures AddedAll(hash, map[], [], Saved(hash, metadata, keys)) == (metadata, keys)
  {
    SavedPrefixRoundTrip(hash, metadata, keys, |keys|);
    assert Restricted(metadata, Hashes(hash, keys)) == metadata;
    assert Saved(hash, metadata, keys)[..|keys|] == Saved(hash, metadata, keys);
    assert keys[..|keys|] == keys;
  }

  /** With a consistent state, there is metadata exactly when some name is listed. */
  lemma HasMetadataIffListed(hash: string -> nat, metadata: map<nat, Variant>, keys: seq<string>)
    requires Consistent(hash, metadata, keys)
    ensures |metadata| > 0 <==> |keys| > 0
  {
    if |keys| > 0 {
      assert hash(keys[0]) in metadata;
    } else {
      assert metadata.Keys == {};
    }
  }

  /** The metadata part of ResourceWithMetadata. */
  class ResourceWithMetadata {
    /** StringHash on names. */
    const hash: string -> nat
    var metadata: map<nat, Variant>
    var metadataKeys: seq<string>

    predicate Valid()
      reads this
    {
      Consistent(hash, metadata, metadataKeys)
    }

    constructor(hash: string -> nat)
      ensures this.hash == hash && metadata == map[] && metadataKeys == []
      ensures Valid()
    {
      this.hash := hash;
      metadata := map[];
      metadataKeys := [];
    }

    /** AddMetadata: store the value under the name's hash; list the name if the hash was new. */
    method AddMetadata(name: string, value: Variant)
      requires Valid()
      modifies this
      ensures Valid()
      ensures (metadata, metadataKeys) == Added(hash, old(metadata), old(metadataKeys), name, value)
    {
      var known := hash(name) in metadata;
      metadata := metadata[hash(name) := value];
      if !known {
        metadataKeys := metadataKeys + [name];
      }
      AddedConsistent(hash, old(metadata), old(metadataKeys), name, value);
    }

    /**
     * RemoveMetadata: erase the entry under the name's hash and the name's first listing.
     * The state stays consistent unless the name's hash belongs to a different listed name.
     */
    method RemoveMetadata(name: string)
      requires Valid()
      modifies this
      ensures metadata == old(metadata) - {hash(name)}
      ensures metadataKeys == RemoveFirst(old(metadataKeys), name)
      ensures name in old(metadataKeys) || hash(name) !in old(metadata) ==> Valid()
    {
      metadata := metadata - {hash(name)};
      metadataKeys := RemoveFirst(metadataKeys, name);
      if name in old(metadataKeys) {
        RemovedConsistent(hash, old(metadata), old(metadataKeys), name);
      } else if hash(name) !in old(metadata) {
        assert metadata == old(metadata);
      }
    }

    method RemoveAllMetadata()
      modifies this
      ensures metadata == map[] && metadataKeys == []
      ensures Valid()
    {
      metadata := map[];
      metadataKeys := [];
    }

    method GetMetadata(name: string) returns (value: Variant)
      ensures value == Lookup(hash, metadata, name)
      ensures hash(name) !in metadata ==> value == Empty
    {
      value := if hash(name) in metadata then metadata[hash(name)] else Empty;
    }

    method HasMetadata() returns (has: bool)
      requires Valid()
      ensures has <==> |metadata| > 0
      ensures has <==> |metadataKeys| > 0
    {
      HasMetadataIffListed(hash, metadata, metadataKeys);
      has := |metadata| != 0;
    }

    /** LoadMetadataFromXML / LoadMetadataFromJSON: add each (name, value) entry in document order. */
    method LoadMetadata(entries: seq<(string, Variant)>)
      requires Valid()
      modifies this
      ensures Valid()
      ensures (metadata, metadataKeys) == AddedAll(hash, old(metadata), old(metadataKeys), entries)
    {
      for i := 0 to |entries|
        invariant Valid()
        invariant (metadata, metadataKeys) == AddedAll(hash, old(metadata), old(metadataKeys), entries[..i])
      {
        assert entries[..i + 1][..i] == entries[..i];
        AddMetadata(entries[i].0, entries[i].1);
      }
      assert entries[..|entries|] == entries;
    }

    /** SaveMetadataToXML: one (name, value) pair per listed name, in insertion order. */
    method SaveMetadata() returns (entries: seq<(string, Variant)>)
      ensures entries == Saved(hash, metadata, metadataKeys)
    {
      entries := [];
      for i := 0 to |metadataKeys|
        invariant entries == Saved(hash, metadata, metadataKeys[..i])
      {
        var value := GetMetadata(metadataKeys[i]);
        entries := entries + [(metadataKeys[i], value)];
      }
      assert metadataKeys[..|metadataKeys|] == metadataKeys;
    }

    /** CopyMetadata: both the map and the name list become the source's. */
    method CopyMetadata(source: ResourceWithMetadata)
      requires source.Valid() && source.hash == hash
      modifies this
      ensures metadata == source.metadata && metadataKeys == source.metadataKeys
      ensures Valid()
    {
      metadata := source.metadata;
      metadataKeys := source.metadataKeys;
    }
  }
}
