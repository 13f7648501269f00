/**
 * The indexed cache (RedisCache.cs): primary entries stored as encoded strings,
 * tracking indexes stored as sets of keys, custom indexes stored as hashes from a
 * secondary key to a primary key, and read-repair of tracking indexes.
 *
 * Each operation is described twice: as the list of write commands it sends to
 * the store (a function of its inputs and the store it reads), and as a method of
 * `RedisCache` that sends them. The lemmas state what the commands do.
 */
module Cache {
  import opened Wrappers
  import opened Store

  /** The serializer: JSON text in the source. */
  datatype Codec<!V> = Codec(encode: V -> string, decode: string -> Option<V>)

  /** What the cache relies on of its serializer: a non-null value encodes to non-empty text that decodes back to it. */
  ghost predicate Lawful<V(!new)>(c: Codec<V>) {
    forall v :: c.encode(v) != "" && c.decode(c.encode(v)) == Some(v)
  }

  ghost predicate Distinct(xs: seq<string>) {
    forall i, j :: 0 <= i < j < |xs| ==> xs[i] != xs[j]
  }

  // ----- Put and Remove -----

  /** Put: nothing for an empty key or a null value; else the primary write, then the index add. */
  function PutCommands<V>(c: Codec<V>, key: string, value: Option<V>, timeout: Option<nat>, indexName: string): seq<Command> {
    if key == "" || value.None? then []
    else [StringSet(key, c.encode(value.value), timeout)] + (if indexName == "" then [] else [SetAdd(indexName, key)])
  }

  /** Remove: nothing for an empty key; else delete the key, then drop it from the index. */
  function RemoveCommands(key: string, indexName: string): seq<Command> {
    if key == "" then []
    else [KeyDelete(key)] + (if indexName == "" then [] else [SetRemove(indexName, key)])
  }

  // ----- Point reads with read-repair -----

  /** What Get and GetValue return: nothing for an empty key or an empty entry, else the decoded entry. */
  function GetValueResult<V>(c: Codec<V>, s: Store, key: string): Option<V> {
    if key == "" || StringGet(s, key) == "" then None else c.decode(StringGet(s, key))
  }

  /** The index maintenance of Get and GetValue: drop a key whose entry is empty, re-add one that is present. */
  function ReadRepairCommands(s: Store, key: string, indexName: string): seq<Command> {
    if key == "" || indexName == "" then []
    else if StringGet(s, key) == "" then [SetRemove(indexName, key)]
    else [SetAdd(indexName, key)]
  }

  /** What GetItemViaIndex returns: the entry the hash field points to, read without an index name. */
  function GetItemViaIndexResult<V>(c: Codec<V>, s: Store, indexName: string, indexValue: string): Option<V> {
    var cacheKey := HashGet(s, indexName, indexValue);
    if cacheKey == "" then None else GetValueResult(c, s, cacheKey)
  }

  // ----- Enumeration of a tracking index -----

  /** The members a scan hands to the loop body: each the first time it appears, tracked by a seen-list. */
  function Dedup(scan: seq<string>): seq<string>
    decreases |scan|
  {
    if scan == [] then []
    else
      var seen := Dedup(scan[..|scan| - 1]);
      var m := scan[|scan| - 1];
      if m in seen then seen else seen + [m]
  }

  /** The seen-list processes every scanned member exactly once: each at most once, and none is missed. */
  lemma {:induction false} DedupDistinctAndComplete(scan: seq<string>)
    ensures Distinct(Dedup(scan))
    ensures forall m :: m in Dedup(scan) <==> m in scan
    decreases |scan|
  {
    if scan != [] {
      var prefix := scan[..|scan| - 1];
      assert scan == prefix + [scan[|scan| - 1]];
      DedupDistinctAndComplete(prefix);
    }
  }

  /** The position of the first occurrence of `m` in `xs`. */
  function FirstIndex(xs: seq<string>, m: string): (i: nat)
    requires m in xs
    ensures i < |xs| && xs[i] == m
    ensures forall j :: 0 <= j < i ==> xs[j] != m
  {
    if xs[0] == m then 0 else 1 + FirstIndex(xs[1..], m)
  }

  /** Appending to a sequence does not move the first occurrence of a member already in it. */
  lemma FirstIndexSnoc(xs: seq<string>, y: string, m: string)
    requires m in xs
    ensures FirstIndex(xs + [y], m) == FirstIndex(xs, m)
  {
    var i, k := FirstIndex(xs, m), FirstIndex(xs + [y], m);
    assert (xs + [y])[i] == m;
  }

  /** The seen-list hands members to the loop body in the order of their first appearance in the scan. */
  lemma {:induction false} DedupInScanOrder(scan: seq<string>)
    ensures forall i, j :: 0 <= i < j < |Dedup(scan)| ==>
      Dedup(scan)[i] in scan && Dedup(scan)[j] in scan && FirstIndex(scan, Dedup(scan)[i]) < FirstIndex(scan, Dedup(scan)[j])
    decreases |scan|
  {
    DedupDistinctAndComplete(scan);
    if scan != [] {
      var prefix := scan[..|scan| - 1];
      var m := scan[|scan| - 1];
      assert scan == prefix + [m];
      DedupInScanOrder(prefix);
      DedupDistinctAndComplete(prefix);
      var seen := Dedup(prefix);
      forall x | x in seen
        ensures FirstIndex(scan, x) == FirstIndex(prefix, x)
      {
        FirstIndexSnoc(prefix, m, x);
      }
      if m !in seen {
        assert FirstIndex(scan, m) == |prefix|;
        assert Dedup(scan) == seen + [m];
        forall i, j | 0 <= i < j < |Dedup(scan)|
          ensures FirstIndex(scan, Dedup(scan)[i]) < FirstIndex(scan, Dedup(scan)[j])
        {
          assert Dedup(scan)[i] == seen[i];
          if j < |seen| {
            assert Dedup(scan)[j] == seen[j];
          }
        }
      }
    }
  }

  /** `xs` is `ys` with some elements left out: `pos` gives, in increasing order, where each element of `xs` sits in `ys`. */
  ghost predicate SubsequenceAt(xs: seq<string>, ys: seq<string>, pos: seq<nat>) {
    && |pos| == |xs|
    && (forall k :: 0 <= k < |pos| ==> pos[k] < |ys| && xs[k] == ys[pos[k]])
    && (forall i, j :: 0 <= i < j < |pos| ==> pos[i] < pos[j])
  }

  ghost predicate Subsequence(xs: seq<string>, ys: seq<string>) {
    exists pos :: SubsequenceAt(xs, ys, pos)
  }

  /** The members, in order, whose string entry is non-empty. */
  function Live(s: Store, members: seq<string>): seq<string>
    decreases |members|
  {
    if members == [] then []
    else
      var rest := Live(s, members[..|members| - 1]);
      var m := members[|members| - 1];
      if StringGet(s, m) == "" then rest else rest + [m]
  }

  /** Live keeps exactly the members with a non-empty entry, and keeps them distinct. */
  lemma {:induction false} LiveMembers(s: Store, members: seq<string>)
    ensures forall m :: m in Live(s, members) <==> m in members && StringGet(s, m) != ""
    ensures Distinct(members) ==> Distinct(Live(s, members))
    decreases |members|
  {
    if members != [] {
      var prefix := members[..|members| - 1];
      assert members == prefix + [members[|members| - 1]];
      LiveMembers(s, prefix);
    }
  }

  /** Live keeps the members it keeps in their order: it is a subsequence of its input. */
  lemma {:induction false} LiveIsSubsequence(s: Store, members: seq<string>)
    ensures Subsequence(Live(s, members), members)
    decreases |members|
  {
    if members == [] {
      assert SubsequenceAt([], [], []);
    } else {
      var prefix := members[..|members| - 1];
      var m := members[|members| - 1];
      assert members == prefix + [m];
      LiveIsSubsequence(s, prefix);
      var rest := Live(s, prefix);
      var pos: seq<nat> :| SubsequenceAt(rest, prefix, pos);
      assert SubsequenceAt(rest, members, pos) by {
        forall k | 0 <= k < |pos|
          ensures pos[k] < |prefix| && members[pos[k]] == prefix[pos[k]]
        {
        }
      }
      if StringGet(s, m) != "" {
        var pos' := pos + [|prefix|];
        assert SubsequenceAt(rest + [m], members, pos');
      }
    }
  }

  /** The members whose string entry is missing or empty. */
  function Stale(s: Store, members: seq<string>): set<string> {
    set m | m in members && StringGet(s, m) == ""
  }

  /** The values the enumeration yields for the given members. */
  function Yields<V>(c: Codec<V>, s: Store, members: seq<string>): seq<Option<V>>
    decreases |members|
  {
    if members == [] then []
    else
      var rest := Yields(c, s, members[..|members| - 1]);
      var m := members[|members| - 1];
      if StringGet(s, m) == "" then rest else rest + [c.decode(StringGet(s, m))]
  }

  /** The SREM commands the enumeration sends for the given members. */
  function Repairs(s: Store, indexName: string, members: seq<string>): seq<Command>
    decreases |members|
  {
    if members == [] then []
    else
      var rest := Repairs(s, indexName, members[..|members| - 1]);
      var m := members[|members| - 1];
      if StringGet(s, m) == "" then rest + [SetRemove(indexName, m)] else rest
  }

  /** The commands of GetAllIndexedItemsInCache: none for an empty or missing index name. */
  function EnumerateCommands(s: Store, indexName: string, scan: seq<string>): seq<Command> {
    if indexName == "" || !KeyExists(s, indexName) then [] else Repairs(s, indexName, Dedup(scan))
  }

  /** The values GetAllIndexedItemsInCache yields: none for an empty or missing index name. */
  function EnumerateResult<V>(c: Codec<V>, s: Store, indexName: string, scan: seq<string>): seq<Option<V>> {
    if indexName == "" || !KeyExists(s, indexName) then [] else Yields(c, s, Dedup(scan))
  }

  // ----- Lemmas -----

  /** Put with an empty key or a null value leaves the store as it was. */
  lemma PutRejected<V>(c: Codec<V>, s: Store, key: string, value: Option<V>, timeout: Option<nat>, indexName: string)
    requires key == "" || value.None?
    ensures Apply(s, PutCommands(c, key, value, timeout, indexName)) == s
  {
  }

  /** Put of a non-empty key writes exactly the encoded entry and, when an index is named, the key's membership. */
  lemma PutEffect<V>(c: Codec<V>, s: Store, key: string, v: V, timeout: Option<nat>, indexName: string)
    requires key != ""
    ensures var r := Apply(s, PutCommands(c, key, Some(v), timeout, indexName));
      && r.strings == s.strings[key := c.encode(v)]
      && r.hashes == s.hashes
      && (indexName == "" ==> r.sets == s.sets)
      && (indexName != "" ==> r.sets == s.sets[indexName := Members(s, indexName) + {key}])
  {
    var set1 := StringSet(key, c.encode(v), timeout);
    ApplyOne(s, set1);
    if indexName != "" {
      ApplySnoc(s, [set1], SetAdd(indexName, key));
    }
  }

  /** After a Put, GetValue of the same key returns the value put, and its re-add of the key changes nothing. */
  lemma PutThenGetValue<V(!new)>(c: Codec<V>, s: Store, key: string, v: V, timeout: Option<nat>, indexName: string)
    requires Lawful(c) && key != ""
    ensures var r := Apply(s, PutCommands(c, key, Some(v), timeout, indexName));
      && GetValueResult(c, r, key) == Some(v)
      && Apply(r, ReadRepairCommands(r, key, indexName)) == r
  {
    PutEffect(c, s, key, v, timeout, indexName);
    var r := Apply(s, PutCommands(c, key, Some(v), timeout, indexName));
    assert StringGet(r, key) == c.encode(v);
    if indexName != "" {
      ApplyOne(r, SetAdd(indexName, key));
      assert key in Members(r, indexName);
      assert Members(r, indexName) + {key} == Members(r, indexName);
    }
  }

  /** Remove of a non-empty key deletes it from every map, drops it from the index, and changes nothing else. */
  lemma RemoveEffect(s: Store, key: string, indexName: string)
    ensures key == "" ==> Apply(s, RemoveCommands(key, indexName)) == s
    ensures key != "" ==> var r := Apply(s, RemoveCommands(key, indexName));
      && !KeyExists(r, key)
      && r.strings == s.strings - {key}
      && r.hashes == s.hashes - {key}
      && (indexName != "" ==> key !in Members(r, indexName))
      && (indexName != "" && indexName != key ==> Members(r, indexName) == Members(s, indexName) - {key})
      && (forall n :: n != key && n != indexName ==> Members(r, n) == Members(s, n))
      && (indexName == "" ==> r.sets == s.sets - {key})
  {
    if key != "" {
      var del := KeyDelete(key);
      ApplyOne(s, del);
      if indexName != "" {
        ApplySnoc(s, [del], SetRemove(indexName, key));
      }
    }
  }

  /** Removing twice is removing once. */
  lemma RemoveIdempotent(s: Store, key: string, indexName: string)
    ensures var once := Apply(s, RemoveCommands(key, indexName));
      Apply(once, RemoveCommands(key, indexName)) == once
  {
    if key != "" {
      var del := KeyDelete(key);
      var deleted := Step(s, del);
      ApplyOne(s, del);
      if indexName == "" {
        ApplyOne(deleted, del);
      } else {
        var rem := SetRemove(indexName, key);
        var once := Step(deleted, rem);
        ApplySnoc(s, [del], rem);
        assert once == Apply(s, RemoveCommands(key, indexName));
        assert key !in once.strings && key !in once.sets && key !in once.hashes;
        assert once.strings - {key} == once.strings;
        assert once.sets - {key} == once.sets;
        assert once.hashes - {key} == once.hashes;
        assert Step(once, del) == once;
        assert indexName in once.sets ==> once.sets[indexName] != {};
        assert key !in Members(once, indexName);
        assert Members(once, indexName) - {key} == Members(once, indexName);
        assert Step(once, rem) == once;
        ApplySnoc(once, [del], rem);
        ApplyOne(once, del);
      }
    }
  }

  /** The index maintenance of a point read: dropped on an empty entry, re-added on a hit, nothing else touched. */
  lemma ReadRepairEffect(s: Store, key: string, indexName: string)
    ensures var r := Apply(s, ReadRepairCommands(s, key, indexName));
      && r.strings == s.strings
      && r.hashes == s.hashes
      && (key == "" || indexName == "" ==> r == s)
      && (key != "" && indexName != "" ==>
            && r.sets - {indexName} == s.sets - {indexName}
            && Members(r, indexName) ==
                 if StringGet(s, key) == "" then Members(s, indexName) - {key} else Members(s, indexName) + {key})
  {
    if key != "" && indexName != "" {
      ApplyOne(s, ReadRepairCommands(s, key, indexName)[0]);
    }
  }

  /** The enumeration yields the decoded entries of the live members, one per member, in order. */
  lemma {:induction false} YieldsAreLiveValues<V>(c: Codec<V>, s: Store, members: seq<string>)
    ensures |Yields(c, s, members)| == |Live(s, members)|
    ensures forall i :: 0 <= i < |Yields(c, s, members)| ==>
      Yields(c, s, members)[i] == c.decode(StringGet(s, Live(s, members)[i]))
    decreases |members|
  {
    if members != [] {
      YieldsAreLiveValues(c, s, members[..|members| - 1]);
    }
  }

  /** The enumeration's SREM commands drop exactly the stale members from the index and touch nothing else. */
  lemma {:induction false} RepairsEffect(s: Store, indexName: string, members: seq<string>)
    ensures var r := Apply(s, Repairs(s, indexName, members));
      && r.strings == s.strings
      && r.hashes == s.hashes
      && r.sets - {indexName} == s.sets - {indexName}
      && Members(r, indexName) == Members(s, indexName) - Stale(s, members)
    decreases |members|
  {
    if members == [] {
      assert Stale(s, members) == {};
    } else {
      var prefix := members[..|members| - 1];
      var m := members[|members| - 1];
      assert members == prefix + [m];
      RepairsEffect(s, indexName, prefix);
      assert Stale(s, members) == Stale(s, prefix) + (if StringGet(s, m) == "" then {m} else {});
      if StringGet(s, m) == "" {
        var mid := Apply(s, Repairs(s, indexName, prefix));
        ApplySnoc(s, Repairs(s, indexName, prefix), SetRemove(indexName, m));
        SetRemoveEffect(mid, indexName, m);
        assert Step(mid, SetRemove(indexName, m)).sets - {indexName} == mid.sets - {indexName};
      }
    }
  }

  /** Skipping repeats does not change which scanned members are stale. */
  lemma StaleOfDedup(s: Store, scan: seq<string>)
    ensures Stale(s, Dedup(scan)) == Stale(s, scan)
  {
    DedupDistinctAndComplete(scan);
  }

  /** One turn of the enumeration loop: how the seen-list, the yielded values, the repairs and the store grow. */
  lemma ScanStep<V>(c: Codec<V>, s: Store, indexName: string, scan: seq<string>, i: nat)
    requires i < |scan|
    ensures var d := Dedup(scan[..i]); var m := scan[i];
      && Dedup(scan[..i + 1]) == (if m in d then d else d + [m])
      && (m !in d ==>
            && Yields(c, s, d + [m]) ==
                 Yields(c, s, d) + (if StringGet(s, m) == "" then [] else [c.decode(StringGet(s, m))])
            && Repairs(s, indexName, d + [m]) ==
                 Repairs(s, indexName, d) + (if StringGet(s, m) == "" then [SetRemove(indexName, m)] else [])
            && Apply(s, Repairs(s, indexName, d + [m])) ==
                 (if StringGet(s, m) == "" then Step(Apply(s, Repairs(s, indexName, d)), SetRemove(indexName, m))
                  else Apply(s, Repairs(s, indexName, d))))
  {
    assert scan[..i + 1][..i] == scan[..i];
    var d := Dedup(scan[..i]);
    var m := scan[i];
    assert (d + [m])[..|d|] == d;
    if m !in d && StringGet(s, m) == "" {
      ApplySnoc(s, Repairs(s, indexName, d), SetRemove(indexName, m));
    }
  }

  /** The whole enumeration: a no-op for an empty or missing index; otherwise it yields the live members' values and drops the stale ones. */
  lemma EnumerationEffect<V>(c: Codec<V>, s: Store, indexName: string, scan: seq<string>)
    ensures var r := Apply(s, EnumerateCommands(s, indexName, scan));
      && r.strings == s.strings
      && r.hashes == s.hashes
      && (indexName == "" || !KeyExists(s, indexName) ==> r == s && EnumerateResult(c, s, indexName, scan) == [])
      && (indexName != "" && KeyExists(s, indexName) ==>
            && r.sets - {indexName} == s.sets - {indexName}
            && Members(r, indexName) == Members(s, indexName) - Stale(s, scan)
            && Distinct(Live(s, Dedup(scan)))
            && (forall m :: m in Live(s, Dedup(scan)) <==> m in scan && StringGet(s, m) != "")
            && |EnumerateResult(c, s, indexName, scan)| == |Live(s, Dedup(scan))|
            && forall i :: 0 <= i < |EnumerateResult(c, s, indexName, scan)| ==>
                 EnumerateResult(c, s, indexName, scan)[i] == c.decode(StringGet(s, Live(s, Dedup(scan))[i])))
  {
    if indexName != "" && KeyExists(s, indexName) {
      RepairsEffect(s, indexName, Dedup(scan));
      YieldsAreLiveValues(c, s, Dedup(scan));
      StaleOfDedup(s, scan);
      DedupDistinctAndComplete(scan);
      LiveMembers(s, Dedup(scan));
    }
  }

  /**
   * When the scan covers the index (as a full SSCAN iteration does), the index is left holding live members only,
   * and every live member of the index is yielded exactly once.
   */
  lemma FullScanRepairsIndex(s: Store, indexName: string, scan: seq<string>)
    requires indexName != "" && KeyExists(s, indexName)
    requires forall m :: m in Members(s, indexName) ==> m in scan
    ensures var r := Apply(s, EnumerateCommands(s, indexName, scan));
      && (forall m :: m in Members(r, indexName) ==> StringGet(r, m) != "")
      && (forall m :: m in Members(s, indexName) && StringGet(s, m) != "" ==> m in Live(s, Dedup(scan)))
  {
    RepairsEffect(s, indexName, Dedup(scan));
    StaleOfDedup(s, scan);
    DedupDistinctAndComplete(scan);
    LiveMembers(s, Dedup(scan));
  }

  /** An enumeration of an index that holds live members only (as FullScanRepairsIndex leaves it) changes nothing. */
  lemma RepairedIndexEnumeratesWithoutChange(r: Store, indexName: string, scan: seq<string>)
    requires Wf(r)
    requires forall m :: m in Members(r, indexName) ==> StringGet(r, m) != ""
    requires forall m :: m in scan ==> m in Members(r, indexName)
    ensures Apply(r, EnumerateCommands(r, indexName, scan)) == r
  {
    if indexName != "" && KeyExists(r, indexName) {
      RepairsEffect(r, indexName, Dedup(scan));
      DedupDistinctAndComplete(scan);
      assert Stale(r, Dedup(scan)) == {};
      var r2 := Apply(r, EnumerateCommands(r, indexName, scan));
      assert Members(r2, indexName) == Members(r, indexName);
      forall n ensures (n in r2.sets <==> n in r.sets) && (n in r.sets ==> r2.sets[n] == r.sets[n]) {
        if n != indexName {
          assert (n in r2.sets <==> n in r2.sets - {indexName}) && (n in r.sets <==> n in r.sets - {indexName});
          if n in r.sets {
            assert (r2.sets - {indexName})[n] == (r.sets - {indexName})[n];
          }
        }
      }
      assert r2.sets == r.sets;
    }
  }

  // ----- The cache object -----

  /** The cache: the three maps of the store it is connected to, its serializer, and a record of the writes it sent. */
  class RedisCache<V> {
    var strings: map<string, string>
    var sets: map<string, set<string>>
    var hashes: map<string, map<string, string>>
    const codec: Codec<V>
    /** Every write command sent so far, oldest first. */
    ghost var trace: seq<Command>

    function State(): Store
      reads this
    {
      Store(strings, sets, hashes)
    }

    ghost predicate Valid()
      reads this
    {
      Wf(State())
    }

    /** Connects to a store that may already hold data. */
    constructor (codec: Codec<V>, initial: Store)
      requires Wf(initial)
      ensures Valid() && State() == initial && this.codec == codec && trace == []
    {
      this.codec := codec;
      strings, sets, hashes := initial.strings, initial.sets, initial.hashes;
      trace := [];
    }

    /** Sends one write command to the store. */
    method Execute(c: Command)
      requires Valid()
      modifies this
      ensures Valid()
      ensures State() == Step(old(State()), c)
      ensures trace == old(trace) + [c]
    {
      var next := Step(State(), c);
      strings, sets, hashes := next.strings, next.sets, next.hashes;
      trace := trace + [c];
    }

    /** A string entry reaching its time-to-live: the store drops it without telling the cache. */
    method Expire(key: string)
      requires Valid()
      modifies this
      ensures Valid()
      ensures strings == old(strings) - {key} && sets == old(sets) && hashes == old(hashes)
      ensures trace == old(trace)
    {
      strings := strings - {key};
    }

    method Contains(key: string) returns (r: bool)
      ensures r <==> key in strings || key in sets || key in hashes
    {
      r := KeyExists(State(), key);
    }

    method GetValue(key: string, indexName: string) returns (r: Option<V>)
      requires Valid()
      modifies this
      ensures Valid()
      ensures r == GetValueResult(codec, old(State()), key)
      ensures trace == old(trace) + ReadRepairCommands(old(State()), key, indexName)
      ensures State() == Apply(old(State()), ReadRepairCommands(old(State()), key, indexName))
      ensures strings == old(strings) && hashes == old(hashes)
      ensures key == "" || indexName == "" ==> sets == old(sets)
      ensures key != "" && indexName != "" ==>
        Members(State(), indexName) ==
          if old(StringGet(State(), key)) == "" then old(Members(State(), indexName)) - {key}
          else old(Members(State(), indexName)) + {key}
    {
      ghost var s0 := State();
      ReadRepairEffect(s0, key, indexName);
      if key == "" {
        return None;
      }
      var cachedValue := StringGet(State(), key);
      if cachedValue == "" {
        if indexName != "" {
          Execute(SetRemove(indexName, key));
          ApplyOne(s0, SetRemove(indexName, key));
        }
        return None;
      }
      var result := codec.decode(cachedValue);
      if indexName == "" {
        return result;
      }
      Execute(SetAdd(indexName, key));
      ApplyOne(s0, SetAdd(indexName, key));
      return result;
    }

    /** The untyped read; with one serializer in the model it behaves as GetValue. */
    method Get(key: string, indexName: string) returns (r: Option<V>)
      requires Valid()
      modifies this
      ensures Valid()
      ensures r == GetValueResult(codec, old(State()), key)
      ensures trace == old(trace) + ReadRepairCommands(old(State()), key, indexName)
      ensures State() == Apply(old(State()), ReadRepairCommands(old(State()), key, indexName))
      ensures strings == old(strings) && hashes == old(hashes)
      ensures key == "" || indexName == "" ==> sets == old(sets)
      ensures key != "" && indexName != "" ==>
        Members(State(), indexName) ==
          if old(StringGet(State(), key)) == "" then old(Members(State(), indexName)) - {key}
          else old(Members(State(), indexName)) + {key}
    {
      r := GetValue(key, indexName);
    }

    method Remove(key: string, indexName: string)
      requires Valid()
      modifies this
      ensures Valid()
      ensures trace == old(trace) + RemoveCommands(key, indexName)
      ensures State() == Apply(old(State()), RemoveCommands(key, indexName))
      ensures key == "" ==> State() == old(State())
      ensures key != "" ==> !KeyExists(State(), key)
      ensures key != "" && indexName != "" ==> key !in Members(State(), indexName)
    {
      ghost var s0 := State();
      RemoveEffect(s0, key, indexName);
      if key == "" {
        return;
      }
      Execute(KeyDelete(key));
      ApplyOne(s0, KeyDelete(key));
      if indexName == "" {
        return;
      }
      Execute(SetRemove(indexName, key));
      ApplySnoc(s0, [KeyDelete(key)], SetRemove(indexName, key));
    }

    method Put(key: string, value: Option<V>, timeout: Option<nat>, indexName: string)
      requires Valid()
      modifies this
      ensures Valid()
      ensures trace == old(trace) + PutCommands(codec, key, value, timeout, indexName)
      ensures State() == Apply(old(State()), PutCommands(codec, key, value, timeout, indexName))
      ensures key == "" || value.None? ==> State() == old(State())
      ensures key != "" && value.Some? ==>
        && strings == old(strings)[key := codec.encode(value.value)]
        && hashes == old(hashes)
        && (indexName == "" ==> sets == old(sets))
        && (indexName != "" ==> sets == old(sets)[indexName := old(Members(State(), indexName)) + {key}])
    {
      ghost var s0 := State();
      if key == "" || value.None? {
        return;
      }
      PutEffect(codec, s0, key, value.value, timeout, indexName);
      var cacheValue := codec.encode(value.value);
      Execute(StringSet(key, cacheValue, timeout));
      ApplyOne(s0, StringSet(key, cacheValue, timeout));
      if indexName == "" {
        return;
      }
      Execute(SetAdd(indexName, key));
      ApplySnoc(s0, [StringSet(key, cacheValue, timeout)], SetAdd(indexName, key));
    }

    /** The tracking-index enumeration, run to completion over one scan of the index's members (which may repeat). */
    method GetAllIndexedItemsInCache(indexName: string, scan: seq<string>) returns (items: seq<Option<V>>)
      requires Valid()
      modifies this
      ensures Valid()
      ensures items == EnumerateResult(codec, old(State()), indexName, scan)
      ensures trace == old(trace) + EnumerateCommands(old(State()), indexName, scan)
      ensures State() == Apply(old(State()), EnumerateCommands(old(State()), indexName, scan))
      ensures strings == old(strings) && hashes == old(hashes)
      ensures indexName == "" || !old(KeyExists(State(), indexName)) ==> items == [] && sets == old(sets)
      ensures indexName != "" && old(KeyExists(State(), indexName)) ==>
        && sets - {indexName} == old(sets) - {indexName}
        && Members(State(), indexName) == old(Members(State(), indexName)) - Stale(old(State()), scan)
    {
      items := [];
      if indexName == "" {
        return;
      }
      if !KeyExists(State(), indexName) {
        return;
      }
      ghost var s0 := State();
      items := ScanMembers(indexName, scan);
      assert sets - {indexName} == s0.sets - {indexName}
          && Members(State(), indexName) == Members(s0, indexName) - Stale(s0, scan) by {
        RepairsEffect(s0, indexName, Dedup(scan));
        StaleOfDedup(s0, scan);
      }
    }

    /** The enumeration's loop: each member the first time the scan shows it; SREM if its entry is empty, else yield it. */
    method ScanMembers(indexName: string, scan: seq<string>) returns (items: seq<Option<V>>)
      requires Valid()
      modifies this
      ensures Valid()
      ensures items == Yields(codec, old(State()), Dedup(scan))
      ensures trace == old(trace) + Repairs(old(State()), indexName, Dedup(scan))
      ensures State() == Apply(old(State()), Repairs(old(State()), indexName, Dedup(scan)))
      ensures strings == old(strings) && hashes == old(hashes)
    {
      ghost var s0 := State();
      ghost var t0 := trace;
      items := [];
      var previouslyScannedMembers: seq<string> := [];
      var i := 0;
      while i < |scan|
        invariant 0 <= i <= |scan|
        invariant Valid()
        invariant previouslyScannedMembers == Dedup(scan[..i])
        invariant items == Yields(codec, s0, previouslyScannedMembers)
        invariant trace == t0 + Repairs(s0, indexName, previouslyScannedMembers)
        invariant State() == Apply(s0, Repairs(s0, indexName, previouslyScannedMembers))
        invariant strings == s0.strings && hashes == s0.hashes
      {
        previouslyScannedMembers, items := ScanTurn(indexName, scan, i, previouslyScannedMembers, items, s0, t0);
        i := i + 1;
      }
      assert scan[..|scan|] == scan;
    }

    /** One turn of the enumeration's loop, for the member at position `i` of the scan. */
    method ScanTurn(indexName: string, scan: seq<string>, i: nat, seen: seq<string>, items: seq<Option<V>>,
                    ghost s0: Store, ghost t0: seq<Command>)
      returns (seen': seq<string>, items': seq<Option<V>>)
      requires i < |scan| && Valid()
      requires seen == Dedup(scan[..i]) && items == Yields(codec, s0, seen)
      requires trace == t0 + Repairs(s0, indexName, seen)
      requires State() == Apply(s0, Repairs(s0, indexName, seen))
      requires strings == s0.strings && hashes == s0.hashes
      modifies this
      ensures Valid()
      ensures seen' == Dedup(scan[..i + 1]) && items' == Yields(codec, s0, seen')
      ensures trace == t0 + Repairs(s0, indexName, seen')
      ensures State() == Apply(s0, Repairs(s0, indexName, seen'))
      ensures strings == s0.strings && hashes == s0.hashes
    {
      var member := scan[i];
      ScanStep(codec, s0, indexName, scan, i);
      seen', items' := seen, items;
      if member !in seen {
        seen' := seen + [member];
        var cachedValue := StringGet(State(), member);
        if cachedValue == "" {
          ghost var before := State();
          Execute(SetRemove(indexName, member));
          SetRemoveEffect(before, indexName, member);
          ConcatAssoc(t0, Repairs(s0, indexName, seen), [SetRemove(indexName, member)]);
        } else {
          items' := items + [codec.decode(cachedValue)];
        }
      }
    }

    /** Two-hop lookup: hash field to primary key, then GetValue of that key with no index name. */
    method GetItemViaIndex(indexName: string, indexValue: string) returns (r: Option<V>)
      requires Valid()
      modifies this
      ensures Valid()
      ensures State() == old(State()) && trace == old(trace)
      ensures r == GetItemViaIndexResult(codec, old(State()), indexName, indexValue)
    {
      var cacheKey := HashGet(State(), indexName, indexValue);
      if cacheKey == "" {
        r := None;
      } else {
        r := GetValue(cacheKey, "");
      }
    }

    /** Flushes every server: the store becomes empty. */
    method ClearCache()
      requires Valid()
      modifies this
      ensures Valid()
      ensures State() == Empty
      ensures trace == old(trace) + [FlushAll]
    {
      Execute(FlushAll);
    }

    /** Points one field of a custom index at a primary key, replacing what it held. */
    method SetIndex(indexName: string, keyValuePair: (string, string))
      requires Valid()
      modifies this
      ensures Valid()
      ensures trace == old(trace) + [HashSet(indexName, keyValuePair.0, keyValuePair.1)]
      ensures State() == Step(old(State()), HashSet(indexName, keyValuePair.0, keyValuePair.1))
      ensures strings == old(strings) && sets == old(sets)
      ensures hashes == old(hashes)[indexName := old(Fields(State(), indexName))[keyValuePair.0 := keyValuePair.1]]
    {
      Execute(HashSet(indexName, keyValuePair.0, keyValuePair.1));
    }

    /** Deletes one field of a custom index (HDEL); the facade calls it RemoveFromCustomIndex. */
    method RemoveFromIndex(indexName: string, field: string)
      requires Valid()
      modifies this
      ensures Valid()
      ensures trace == old(trace) + [HashDelete(indexName, field)]
      ensures State() == Step(old(State()), HashDelete(indexName, field))
      ensures strings == old(strings) && sets == old(sets)
      ensures hashes - {indexName} == old(hashes) - {indexName}
      ensures Fields(State(), indexName) == old(Fields(State(), indexName)) - {field}
    {
      Execute(HashDelete(indexName, field));
    }
  }
}
