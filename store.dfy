/**
 * The key-value store behind the cache: a Redis database as the cache sees it
 * through its client (`IDatabase` in StackExchange.Redis). Only the commands the
 * cache issues are modelled, as values, so that the order in which the cache
 * issues them can be stated.
 */
module Store {
  import opened Wrappers

  /** A write command sent to the store. */
  datatype Command =
    | StringSet(key: string, value: string, expiry: Option<nat>)  // SET key value [EX seconds]
    | KeyDelete(key: string)                                      // DEL key
    | SetAdd(setKey: string, member: string)                      // SADD setKey member
    | SetRemove(setKey: string, member: string)                   // SREM setKey member
    | HashSet(hashKey: string, field: string, value: string)      // HSET hashKey field value
    | HashDelete(hashKey: string, field: string)                  // HDEL hashKey field
    | FlushAll                                                    // FLUSHALL on every server

  /** String entries, sets of keys and hashes from field to key. */
  datatype Store = Store(
    strings: map<string, string>,
    sets: map<string, set<string>>,
    hashes: map<string, map<string, string>>)

  const Empty: Store := Store(map[], map[], map[])

  /** Redis drops a set or a hash together with its last element, so none is ever empty. */
  ghost predicate Wf(s: Store) {
    && (forall n :: n in s.sets ==> s.sets[n] != {})
    && (forall h :: h in s.hashes ==> s.hashes[h] != map[])
  }

  /** GET: a missing key (nil) reads as the empty string; every caller treats the two alike. */
  function StringGet(s: Store, key: string): string {
    if key in s.strings then s.strings[key] else ""
  }

  /** The members of a set; a missing set has none. */
  function Members(s: Store, setKey: string): set<string> {
    if setKey in s.sets then s.sets[setKey] else {}
  }

  /** The fields of a hash; a missing hash has none. */
  function Fields(s: Store, hashKey: string): map<string, string> {
    if hashKey in s.hashes then s.hashes[hashKey] else map[]
  }

  /** HGET: a missing hash or field reads as the empty string. */
  function HashGet(s: Store, hashKey: string, field: string): string {
    var f := Fields(s, hashKey);
    if field in f then f[field] else ""
  }

  /** EXISTS: the key names a string, a set or a hash. */
  predicate KeyExists(s: Store, key: string) {
    key in s.strings || key in s.sets || key in s.hashes
  }

  /** The store after one command. */
  function Step(s: Store, c: Command): (r: Store)
    ensures Wf(s) ==> Wf(r)
  {
    match c
    case StringSet(k, v, _) => s.(strings := s.strings[k := v])
    case KeyDelete(k) => Store(s.strings - {k}, s.sets - {k}, s.hashes - {k})
    case SetAdd(n, m) => s.(sets := s.sets[n := Members(s, n) + {m}])
    case SetRemove(n, m) =>
      var rest := Members(s, n) - {m};
      s.(sets := if rest == {} then s.sets - {n} else s.sets[n := rest])
    case HashSet(h, f, v) =>
      var fields := Fields(s, h)[f := v];
      assert f in fields;
      s.(hashes := s.hashes[h := fields])
    case HashDelete(h, f) =>
      var rest := Fields(s, h) - {f};
      s.(hashes := if rest == map[] then s.hashes - {h} else s.hashes[h := rest])
    case FlushAll => Empty
  }

  /** The store after a sequence of commands, run in order. */
  function Apply(s: Store, cs: seq<Command>): (r: Store)
    ensures Wf(s) ==> Wf(r)
    decreases cs
  {
    if cs == [] then s else Apply(Step(s, cs[0]), cs[1..])
  }

  /** Running two command sequences one after the other is running their concatenation. */
  lemma {:induction false} ApplyConcat(s: Store, a: seq<Command>, b: seq<Command>)
    ensures Apply(s, a + b) == Apply(Apply(s, a), b)
    decreases a
  {
    if a != [] {
      assert (a + b)[0] == a[0];
      assert (a + b)[1..] == a[1..] + b;
      ApplyConcat(Step(s, a[0]), a[1..], b);
    } else {
      assert a + b == b;
    }
  }

  /** Appending one command to a run applies one more step. */
  lemma ApplySnoc(s: Store, a: seq<Command>, c: Command)
    ensures Apply(s, a + [c]) == Step(Apply(s, a), c)
  {
    ApplyConcat(s, a, [c]);
    assert [c][1..] == [];
  }

  /** One command run on its own is one step. */
  lemma ApplyOne(s: Store, c: Command)
    ensures Apply(s, [c]) == Step(s, c)
  {
    ApplySnoc(s, [], c);
    assert [] + [c] == [c];
  }

  /** Regrouping the parts of a concatenated trace. */
  lemma ConcatAssoc<T>(a: seq<T>, b: seq<T>, c: seq<T>)
    ensures (a + b) + c == a + (b + c)
  {
  }

  /** SREM removes one member of one set and changes nothing else. */
  lemma SetRemoveEffect(s: Store, n: string, m: string)
    ensures var r := Step(s, SetRemove(n, m));
      && r.strings == s.strings && r.hashes == s.hashes
      && r.sets - {n} == s.sets - {n}
      && Members(r, n) == Members(s, n) - {m}
  {
  }

  /** HSET changes one field of one hash and nothing else. */
  lemma HashSetEffect(s: Store, h: string, f: string, v: string)
    ensures var r := Step(s, HashSet(h, f, v));
      && r.strings == s.strings && r.sets == s.sets
      && r.hashes - {h} == s.hashes - {h}
      && Fields(r, h) == Fields(s, h)[f := v]
  {
  }

  /** HDEL removes one field of one hash and changes nothing else. */
  lemma HashDeleteEffect(s: Store, h: string, f: string)
    ensures var r := Step(s, HashDelete(h, f));
      && r.strings == s.strings && r.sets == s.sets
      && r.hashes - {h} == s.hashes - {h}
      && Fields(r, h) == Fields(s, h) - {f}
  {
  }

  /** Two updates of a map, each confined to one key, leave every other key as it was. */
  lemma TwoKeyFrame<V>(a: map<string, V>, b: map<string, V>, c: map<string, V>, k1: string, k2: string)
    requires k1 != k2 && b - {k1} == a - {k1} && c - {k2} == b - {k2}
    ensures c - {k1, k2} == a - {k1, k2}
    ensures (k1 in c <==> k1 in b) && (k1 in c ==> c[k1] == b[k1])
    ensures (k2 in b <==> k2 in a) && (k2 in b ==> b[k2] == a[k2])
  {
    assert k1 in c <==> k1 in c - {k2};
    assert k1 in b <==> k1 in b - {k2};
    if k1 in c {
      assert (c - {k2})[k1] == (b - {k2})[k1];
    }
    assert k2 in b <==> k2 in b - {k1};
    assert k2 in a <==> k2 in a - {k1};
    if k2 in b {
      assert (b - {k1})[k2] == (a - {k1})[k2];
    }
    assert c - {k1, k2} == (c - {k2}) - {k1};
    assert a - {k1, k2} == (a - {k1}) - {k2};
  }

  /** Removing one key and then two more is removing all three. */
  lemma MinusRegroup<V>(m: map<string, V>, k: string, k1: string, k2: string)
    ensures (m - {k}) - {k1, k2} == m - {k, k1, k2}
  {
  }

  /** DEL is idempotent and leaves the key absent from every map. */
  lemma KeyDeleteIdempotent(s: Store, k: string)
    ensures !KeyExists(Step(s, KeyDelete(k)), k)
    ensures Step(Step(s, KeyDelete(k)), KeyDelete(k)) == Step(s, KeyDelete(k))
  {
  }

  /** After FLUSHALL no key exists. */
  lemma FlushAllEmpties(s: Store, k: string)
    ensures !KeyExists(Step(s, FlushAll), k)
  {
  }
}
