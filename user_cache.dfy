/**
 * The user facade over the indexed cache (UserCache.cs): a user is stored under a key
 * composed from the user name, tracked in the users index, and reachable through two
 * custom indexes, one from each email address and one from the user id.
 */
module UserCaching {
  import opened Wrappers
  import opened Store
  import opened Cache
  import opened Identity

  /** The cached user: its id, its user name and its email addresses. */
  datatype User = User(id: int32, username: string, emails: seq<Email>)

  // ----- Key composers -----

  const KeyPrefix: string := "UserEntity_"

  /** The primary key of a user: the entity name, an underscore, the key item. */
  function ComposeKey(keyItem: string): (r: string)
    ensures |r| == |KeyPrefix| + |keyItem|
    ensures r[..|KeyPrefix|] == KeyPrefix && r[|KeyPrefix|..] == keyItem
  {
    KeyPrefix + keyItem
  }

  /** The key item a primary key was composed from, if it is one. */
  function KeyItem(key: string): (r: Option<string>)
    ensures r.Some? <==> |key| >= |KeyPrefix| && key[..|KeyPrefix|] == KeyPrefix
    ensures r.Some? ==> ComposeKey(r.value) == key
  {
    if |key| >= |KeyPrefix| && key[..|KeyPrefix|] == KeyPrefix then
      var item := key[|KeyPrefix|..];
      assert key == key[..|KeyPrefix|] + item;
      Some(item)
    else None
  }

  /** The tracking index of all cached users: never empty, and never a user's primary key. */
  function ComposeIndexKey(): (r: string)
    ensures r != "" && forall k :: ComposeKey(k) != r
  {
    assert forall k :: ComposeKey(k)[4] == KeyPrefix[4];
    "UsersIndexList"
  }

  /** The custom index from email address to primary key: never empty, and never a user's primary key. */
  function ComposeEmailIndexKey(): (r: string)
    ensures r != "" && forall k :: ComposeKey(k) != r
  {
    assert forall k :: ComposeKey(k)[4] == KeyPrefix[4];
    "User" + ":" + "Emails"
  }

  /** The custom index from user id to primary key: never empty, and never a user's primary key. */
  function ComposeUserIdIndexKey(): (r: string)
    ensures r != "" && forall k :: ComposeKey(k) != r
  {
    assert forall k :: ComposeKey(k)[4] == KeyPrefix[4];
    "User" + ":" + "Ids"
  }

  /** A composed key is never empty, and the key item can be read back from it. */
  lemma ComposeKeyRoundTrip(keyItem: string)
    ensures ComposeKey(keyItem) != ""
    ensures KeyItem(ComposeKey(keyItem)) == Some(keyItem)
  {
    var k := ComposeKey(keyItem);
    assert k[..|KeyPrefix|] == KeyPrefix;
    assert k[|KeyPrefix|..] == keyItem;
  }

  /** Different user names give different primary keys. */
  lemma ComposeKeyInjective(a: string, b: string)
    requires ComposeKey(a) == ComposeKey(b)
    ensures a == b
  {
    ComposeKeyRoundTrip(a);
    ComposeKeyRoundTrip(b);
  }

  /** The three index names are pairwise distinct. */
  lemma IndexNamesDistinct()
    ensures ComposeIndexKey() != ComposeEmailIndexKey()
    ensures ComposeIndexKey() != ComposeUserIdIndexKey()
    ensures ComposeEmailIndexKey() != ComposeUserIdIndexKey()
  {
    assert ComposeIndexKey()[4] == 's';
    assert ComposeEmailIndexKey()[4] == ':';
    assert ComposeEmailIndexKey()[5] == 'E' && ComposeUserIdIndexKey()[5] == 'I';
  }

  // ----- Decimal text of an id -----

  function DigitChar(d: nat): (r: char)
    requires d < 10
    ensures '0' <= r <= '9'
  {
    ('0' as int + d) as char
  }

  /** The decimal digits of `n`, most significant first, without leading zeros. */
  function NatToString(n: nat): (r: string)
    ensures |r| >= 1
    ensures forall i :: 0 <= i < |r| ==> '0' <= r[i] <= '9'
    ensures n >= 1 ==> r[0] != '0'
    ensures n == 0 ==> r == "0"
    decreases n
  {
    if n < 10 then [DigitChar(n)] else NatToString(n / 10) + [DigitChar(n % 10)]
  }

  /** `int.ToString()`: a minus sign before the digits of a negative number. */
  function IntToString(n: int32): (r: string)
    ensures |r| >= 1 && (r[0] == '-' <==> n < 0)
    ensures n < 0 ==> |r| >= 2
    ensures forall i :: (if n < 0 then 1 else 0) <= i < |r| ==> '0' <= r[i] <= '9'
    ensures n != 0 ==> r[if n < 0 then 1 else 0] != '0'
    ensures n == 0 ==> r == "0"
  {
    if n < 0 then "-" + NatToString(-(n as int)) else NatToString(n as int)
  }

  /** `int.Parse` on decimal digits: the value of a digit string, most significant digit first. */
  function ParseNat(s: string): int
    decreases |s|
  {
    if s == [] then 0 else 10 * ParseNat(s[..|s| - 1]) + (s[|s| - 1] as int - '0' as int)
  }

  /** `int.Parse`: a leading minus sign negates the digits that follow. */
  function ParseInt(s: string): int {
    if |s| > 0 && s[0] == '-' then -ParseNat(s[1..]) else ParseNat(s)
  }

  /** The digits of a number read back as that number. */
  lemma {:induction false} NatToStringRoundTrip(n: nat)
    ensures ParseNat(NatToString(n)) == n
    decreases n
  {
    if n >= 10 {
      var prefix := NatToString(n / 10);
      assert (prefix + [DigitChar(n % 10)])[..|prefix|] == prefix;
      NatToStringRoundTrip(n / 10);
    }
  }

  /** The text of an id read back as that id. */
  lemma IntToStringRoundTrip(n: int32)
    ensures ParseInt(IntToString(n)) == n as int
  {
    var s := IntToString(n);
    if n < 0 {
      assert s[1..] == NatToString(-(n as int));
      NatToStringRoundTrip(-(n as int));
    } else {
      assert '0' <= s[0] <= '9';
      NatToStringRoundTrip(n as int);
    }
  }

  /** Different ids have different keys in the user id index. */
  lemma IntToStringInjective(a: int32, b: int32)
    requires IntToString(a) == IntToString(b)
    ensures a == b
  {
    IntToStringRoundTrip(a);
    IntToStringRoundTrip(b);
  }

  /** `TimeSpan.FromDays(30)`, in seconds: the expiry of a cached user. */
  const ThirtyDays: nat := 30 * 24 * 60 * 60

  // ----- The commands of PutUserInCache and RemoveUserFromCache -----

  /** The email addresses of a list of emails. */
  function Addresses(emails: seq<Email>): set<string> {
    set e | e in emails :: e.emailAddress
  }

  /** The index fields that map each of the addresses to one key. */
  function PointAll(addresses: set<string>, key: string): map<string, string> {
    map a | a in addresses :: key
  }

  /** One HSET of the email index per email, in list order, each pointing at `userKey`. */
  function EmailIndexCommands(emails: seq<Email>, userKey: string): seq<Command>
    decreases |emails|
  {
    if emails == [] then []
    else
      EmailIndexCommands(emails[..|emails| - 1], userKey)
        + [HashSet(ComposeEmailIndexKey(), emails[|emails| - 1].emailAddress, userKey)]
  }

  /** One HDEL of the email index per email, in list order. */
  function EmailUnindexCommands(emails: seq<Email>): seq<Command>
    decreases |emails|
  {
    if emails == [] then []
    else
      EmailUnindexCommands(emails[..|emails| - 1])
        + [HashDelete(ComposeEmailIndexKey(), emails[|emails| - 1].emailAddress)]
  }

  /** PutUserInCache: the tracked Put for thirty days, the email index entries, then the id index entry. */
  function PutUserCommands(c: Codec<User>, u: User): seq<Command> {
    var key := ComposeKey(u.username);
    PutCommands(c, key, Some(u), Some(ThirtyDays), ComposeIndexKey())
      + EmailIndexCommands(u.emails, key)
      + [HashSet(ComposeUserIdIndexKey(), IntToString(u.id), key)]
  }

  /** RemoveUserFromCache: the tracked Remove, the email index deletions, then the id index deletion. */
  function RemoveUserCommands(u: User): seq<Command> {
    RemoveCommands(ComposeKey(u.username), ComposeIndexKey())
      + EmailUnindexCommands(u.emails)
      + [HashDelete(ComposeUserIdIndexKey(), IntToString(u.id))]
  }

  // ----- Lemmas -----

  /** Pointing one more address at the key is overriding one more field. */
  lemma PointAllSnoc(m: map<string, string>, addresses: set<string>, a: string, key: string)
    ensures (m + PointAll(addresses, key))[a := key] == m + PointAll(addresses + {a}, key)
  {
  }

  /** The email index entries point every address of the list at the key; nothing else changes. */
  lemma {:induction false} EmailIndexEffect(s: Store, emails: seq<Email>, userKey: string)
    ensures var r := Apply(s, EmailIndexCommands(emails, userKey));
      && r.strings == s.strings && r.sets == s.sets
      && r.hashes - {ComposeEmailIndexKey()} == s.hashes - {ComposeEmailIndexKey()}
      && Fields(r, ComposeEmailIndexKey()) == Fields(s, ComposeEmailIndexKey()) + PointAll(Addresses(emails), userKey)
    decreases |emails|
  {
    var h := ComposeEmailIndexKey();
    if emails == [] {
      assert Addresses(emails) == {};
      assert Fields(s, h) + PointAll({}, userKey) == Fields(s, h);
    } else {
      var prefix := emails[..|emails| - 1];
      var last := emails[|emails| - 1];
      assert emails == prefix + [last];
      assert Addresses(emails) == Addresses(prefix) + {last.emailAddress};
      EmailIndexEffect(s, prefix, userKey);
      var mid := Apply(s, EmailIndexCommands(prefix, userKey));
      ApplySnoc(s, EmailIndexCommands(prefix, userKey), HashSet(h, last.emailAddress, userKey));
      HashSetEffect(mid, h, last.emailAddress, userKey);
      PointAllSnoc(Fields(s, h), Addresses(prefix), last.emailAddress, userKey);
      var r := Step(mid, HashSet(h, last.emailAddress, userKey));
      assert r.hashes - {h} == s.hashes - {h} by {
        assert r.hashes - {h} == mid.hashes - {h};
      }
    }
  }

  /** The email index deletions drop every address of the list from the email index; nothing else changes. */
  lemma {:induction false} EmailUnindexEffect(s: Store, emails: seq<Email>)
    ensures var r := Apply(s, EmailUnindexCommands(emails));
      && r.strings == s.strings && r.sets == s.sets
      && r.hashes - {ComposeEmailIndexKey()} == s.hashes - {ComposeEmailIndexKey()}
      && Fields(r, ComposeEmailIndexKey()) == Fields(s, ComposeEmailIndexKey()) - Addresses(emails)
    decreases |emails|
  {
    var h := ComposeEmailIndexKey();
    if emails == [] {
      assert Addresses(emails) == {};
      assert Fields(s, h) - Addresses(emails) == Fields(s, h);
    } else {
      var prefix := emails[..|emails| - 1];
      var last := emails[|emails| - 1];
      assert emails == prefix + [last];
      assert Addresses(emails) == Addresses(prefix) + {last.emailAddress};
      EmailUnindexEffect(s, prefix);
      var mid := Apply(s, EmailUnindexCommands(prefix));
      ApplySnoc(s, EmailUnindexCommands(prefix), HashDelete(h, last.emailAddress));
      HashDeleteEffect(mid, h, last.emailAddress);
      assert Fields(s, h) - Addresses(prefix) - {last.emailAddress} == Fields(s, h) - Addresses(emails);
    }
  }

  /**
   * The store after PutUserInCache: the user's entry is written, its key joins the users
   * index, its addresses and its id point at the key; nothing else changes.
   */
  lemma PutUserState(c: Codec<User>, s: Store, u: User)
    ensures var r := Apply(s, PutUserCommands(c, u)); var key := ComposeKey(u.username);
      var emailIdx, idIdx := ComposeEmailIndexKey(), ComposeUserIdIndexKey();
      && r.strings == s.strings[key := c.encode(u)]
      && r.sets == s.sets[ComposeIndexKey() := Members(s, ComposeIndexKey()) + {key}]
      && r.hashes - {emailIdx, idIdx} == s.hashes - {emailIdx, idIdx}
      && Fields(r, emailIdx) == Fields(s, emailIdx) + PointAll(Addresses(u.emails), key)
      && Fields(r, idIdx) == Fields(s, idIdx)[IntToString(u.id) := key]
  {
    var key := ComposeKey(u.username);
    IndexNamesDistinct();
    var emailIdx, idIdx := ComposeEmailIndexKey(), ComposeUserIdIndexKey();
    var put := PutCommands(c, key, Some(u), Some(ThirtyDays), ComposeIndexKey());
    var idx := EmailIndexCommands(u.emails, key);
    var last := HashSet(idIdx, IntToString(u.id), key);
    PutEffect(c, s, key, u, Some(ThirtyDays), ComposeIndexKey());
    var s1 := Apply(s, put);
    EmailIndexEffect(s1, u.emails, key);
    var s2 := Apply(s1, idx);
    HashSetEffect(s2, idIdx, IntToString(u.id), key);
    var r := Step(s2, last);
    assert r == Apply(s, PutUserCommands(c, u)) by {
      ApplyConcat(s, put, idx);
      ApplySnoc(s, put + idx, last);
    }
    TwoKeyFrame(s1.hashes, s2.hashes, r.hashes, emailIdx, idIdx);
  }

  /**
   * After PutUserInCache the user is tracked, and each lookup finds it: by user name,
   * by each of its email addresses, and by its id.
   */
  lemma PutUserEffect(c: Codec<User>, s: Store, u: User)
    requires Lawful(c)
    ensures var r := Apply(s, PutUserCommands(c, u)); var key := ComposeKey(u.username);
      && key in Members(r, ComposeIndexKey())
      && GetValueResult(c, r, key) == Some(u)
      && (forall e :: e in u.emails ==> GetItemViaIndexResult(c, r, ComposeEmailIndexKey(), e.emailAddress) == Some(u))
      && GetItemViaIndexResult(c, r, ComposeUserIdIndexKey(), IntToString(u.id)) == Some(u)
  {
    var key := ComposeKey(u.username);
    PutUserState(c, s, u);
    var r := Apply(s, PutUserCommands(c, u));
    assert StringGet(r, key) == c.encode(u);
    forall e | e in u.emails
      ensures GetItemViaIndexResult(c, r, ComposeEmailIndexKey(), e.emailAddress) == Some(u)
    {
      assert e.emailAddress in Addresses(u.emails);
      assert HashGet(r, ComposeEmailIndexKey(), e.emailAddress) == key;
    }
    assert HashGet(r, ComposeUserIdIndexKey(), IntToString(u.id)) == key;
  }

  /**
   * The store after RemoveUserFromCache: the user's key is deleted and dropped from the
   * users index, its addresses and its id leave the custom indexes; nothing else changes.
   */
  lemma RemoveUserState(s: Store, u: User)
    ensures var r := Apply(s, RemoveUserCommands(u)); var key := ComposeKey(u.username);
      var emailIdx, idIdx := ComposeEmailIndexKey(), ComposeUserIdIndexKey();
      && r.strings == s.strings - {key}
      && key !in r.sets
      && Members(r, ComposeIndexKey()) == Members(s, ComposeIndexKey()) - {key}
      && (forall n :: n != key && n != ComposeIndexKey() ==> Members(r, n) == Members(s, n))
      && r.hashes - {emailIdx, idIdx} == s.hashes - {key, emailIdx, idIdx}
      && Fields(r, emailIdx) == Fields(s, emailIdx) - Addresses(u.emails)
      && Fields(r, idIdx) == Fields(s, idIdx) - {IntToString(u.id)}
  {
    var key := ComposeKey(u.username);
    IndexNamesDistinct();
    var emailIdx, idIdx := ComposeEmailIndexKey(), ComposeUserIdIndexKey();
    var rem := RemoveCommands(key, ComposeIndexKey());
    var unidx := EmailUnindexCommands(u.emails);
    var last := HashDelete(idIdx, IntToString(u.id));
    RemoveEffect(s, key, ComposeIndexKey());
    var s1 := Apply(s, rem);
    EmailUnindexEffect(s1, u.emails);
    var s2 := Apply(s1, unidx);
    HashDeleteEffect(s2, idIdx, IntToString(u.id));
    var r := Step(s2, last);
    assert r == Apply(s, RemoveUserCommands(u)) by {
      ApplyConcat(s, rem, unidx);
      ApplySnoc(s, rem + unidx, last);
    }
    TwoKeyFrame(s1.hashes, s2.hashes, r.hashes, emailIdx, idIdx);
    assert Fields(s1, emailIdx) == Fields(s, emailIdx) && Fields(s1, idIdx) == Fields(s, idIdx);
    assert s1.hashes - {emailIdx, idIdx} == s.hashes - {key, emailIdx, idIdx} by {
      assert s1.hashes == s.hashes - {key};
      MinusRegroup(s.hashes, key, emailIdx, idIdx);
    }
  }

  /**
   * After RemoveUserFromCache the user's key exists nowhere and is not tracked, and none
   * of the three lookups finds the user any longer.
   */
  lemma RemoveUserEffect(c: Codec<User>, s: Store, u: User)
    ensures var r := Apply(s, RemoveUserCommands(u)); var key := ComposeKey(u.username);
      && !KeyExists(r, key)
      && key !in Members(r, ComposeIndexKey())
      && GetValueResult(c, r, key) == None
      && (forall e :: e in u.emails ==>
            && e.emailAddress !in Fields(r, ComposeEmailIndexKey())
            && GetItemViaIndexResult(c, r, ComposeEmailIndexKey(), e.emailAddress) == None)
      && IntToString(u.id) !in Fields(r, ComposeUserIdIndexKey())
      && GetItemViaIndexResult(c, r, ComposeUserIdIndexKey(), IntToString(u.id)) == None
  {
    var key := ComposeKey(u.username);
    var emailIdx, idIdx := ComposeEmailIndexKey(), ComposeUserIdIndexKey();
    RemoveUserState(s, u);
    var r := Apply(s, RemoveUserCommands(u));
    assert key !in r.hashes by {
      assert key !in r.hashes - {emailIdx, idIdx};
    }
    forall e | e in u.emails
      ensures e.emailAddress !in Fields(r, emailIdx)
    {
      assert e.emailAddress in Addresses(u.emails);
    }
  }

  // ----- The facade object -----

  /** The user facade: every call becomes calls on the one indexed cache it holds. */
  class UserCache {
    const appCache: RedisCache<User>

    constructor (appCache: RedisCache<User>)
      ensures this.appCache == appCache
    {
      this.appCache := appCache;
    }

    /** The user the id index points at, read without an index name. */
    method GetById(id: int32) returns (r: Option<User>)
      requires appCache.Valid()
      modifies appCache
      ensures appCache.Valid()
      ensures appCache.State() == old(appCache.State()) && appCache.trace == old(appCache.trace)
      ensures r == GetItemViaIndexResult(appCache.codec, old(appCache.State()), ComposeUserIdIndexKey(), IntToString(id))
    {
      r := appCache.GetItemViaIndex(ComposeUserIdIndexKey(), IntToString(id));
    }

    /** The user stored under the name's primary key, with read-repair of the users index. */
    method GetByUserName(userName: string) returns (r: Option<User>)
      requires appCache.Valid()
      modifies appCache
      ensures appCache.Valid()
      ensures r == GetValueResult(appCache.codec, old(appCache.State()), ComposeKey(userName))
      ensures appCache.trace == old(appCache.trace) + ReadRepairCommands(old(appCache.State()), ComposeKey(userName), ComposeIndexKey())
      ensures appCache.State() == Apply(old(appCache.State()), ReadRepairCommands(old(appCache.State()), ComposeKey(userName), ComposeIndexKey()))
    {
      r := appCache.GetValue(ComposeKey(userName), ComposeIndexKey());
    }

    /** Stores the user for thirty days in the users index, then indexes each email address and the id. */
    method PutUserInCache(user: User)
      requires appCache.Valid()
      modifies appCache
      ensures appCache.Valid()
      ensures appCache.trace == old(appCache.trace) + PutUserCommands(appCache.codec, user)
      ensures appCache.State() == Apply(old(appCache.State()), PutUserCommands(appCache.codec, user))
    {
      ghost var s0, t0 := appCache.State(), appCache.trace;
      var key := ComposeKey(user.username);
      ghost var put := PutCommands(appCache.codec, key, Some(user), Some(ThirtyDays), ComposeIndexKey());
      ghost var idx := EmailIndexCommands(user.emails, key);
      ghost var last := HashSet(ComposeUserIdIndexKey(), IntToString(user.id), key);
      assert PutUserCommands(appCache.codec, user) == put + idx + [last];
      appCache.Put(key, Some(user), Some(ThirtyDays), ComposeIndexKey());
      ghost var s1, t1 := appCache.State(), appCache.trace;
      IndexEmails(user.emails, key);
      ghost var s2, t2 := appCache.State(), appCache.trace;
      appCache.SetIndex(ComposeUserIdIndexKey(), (IntToString(user.id), key));
      ConcatAssoc(t0, put, idx);
      ConcatAssoc(t0, put + idx, [last]);
      assert appCache.State() == Apply(s0, put + idx + [last]) by {
        assert s1 == Apply(s0, put) && s2 == Apply(s1, idx) && appCache.State() == Step(s2, last);
        ApplyConcat(s0, put, idx);
        ApplySnoc(s0, put + idx, last);
      }
    }

    /** The `ForEach` of PutUserInCache: points each email address at the user's key, in list order. */
    method IndexEmails(emails: seq<Email>, key: string)
      requires appCache.Valid()
      modifies appCache
      ensures appCache.Valid()
      ensures appCache.trace == old(appCache.trace) + EmailIndexCommands(emails, key)
      ensures appCache.State() == Apply(old(appCache.State()), EmailIndexCommands(emails, key))
    {
      ghost var s0 := appCache.State();
      ghost var t0 := appCache.trace;
      var i := 0;
      while i < |emails|
        invariant 0 <= i <= |emails|
        invariant appCache.Valid()
        invariant appCache.trace == t0 + EmailIndexCommands(emails[..i], key)
        invariant appCache.State() == Apply(s0, EmailIndexCommands(emails[..i], key))
      {
        ghost var done := EmailIndexCommands(emails[..i], key);
        ghost var c := HashSet(ComposeEmailIndexKey(), emails[i].emailAddress, key);
        appCache.SetIndex(ComposeEmailIndexKey(), (emails[i].emailAddress, key));
        assert emails[..i + 1][..i] == emails[..i];
        assert EmailIndexCommands(emails[..i + 1], key) == done + [c];
        ApplySnoc(s0, done, c);
        i := i + 1;
      }
      assert emails[..i] == emails;
    }

    /** Removes the user from the cache and the users index, then each email address and the id from their indexes. */
    method RemoveUserFromCache(user: User)
      requires appCache.Valid()
      modifies appCache
      ensures appCache.Valid()
      ensures appCache.trace == old(appCache.trace) + RemoveUserCommands(user)
      ensures appCache.State() == Apply(old(appCache.State()), RemoveUserCommands(user))
    {
      ghost var s0, t0 := appCache.State(), appCache.trace;
      var key := ComposeKey(user.username);
      ghost var rem := RemoveCommands(key, ComposeIndexKey());
      ghost var unidx := EmailUnindexCommands(user.emails);
      ghost var last := HashDelete(ComposeUserIdIndexKey(), IntToString(user.id));
      assert RemoveUserCommands(user) == rem + unidx + [last];
      appCache.Remove(key, ComposeIndexKey());
      ghost var s1 := appCache.State();
      UnindexEmails(user.emails);
      ghost var s2 := appCache.State();
      appCache.RemoveFromIndex(ComposeUserIdIndexKey(), IntToString(user.id));
      ConcatAssoc(t0, rem, unidx);
      ConcatAssoc(t0, rem + unidx, [last]);
      assert appCache.State() == Apply(s0, rem + unidx + [last]) by {
        assert s1 == Apply(s0, rem) && s2 == Apply(s1, unidx) && appCache.State() == Step(s2, last);
        ApplyConcat(s0, rem, unidx);
        ApplySnoc(s0, rem + unidx, last);
      }
    }

    /** The `ForEach` of RemoveUserFromCache: deletes each email address from the email index, in list order. */
    method UnindexEmails(emails: seq<Email>)
      requires appCache.Valid()
      modifies appCache
      ensures appCache.Valid()
      ensures appCache.trace == old(appCache.trace) + EmailUnindexCommands(emails)
      ensures appCache.State() == Apply(old(appCache.State()), EmailUnindexCommands(emails))
    {
      ghost var s0 := appCache.State();
      ghost var t0 := appCache.trace;
      var i := 0;
      while i < |emails|
        invariant 0 <= i <= |emails|
        invariant appCache.Valid()
        invariant appCache.trace == t0 + EmailUnindexCommands(emails[..i])
        invariant appCache.State() == Apply(s0, EmailUnindexCommands(emails[..i]))
      {
        ghost var done := EmailUnindexCommands(emails[..i]);
        ghost var c := HashDelete(ComposeEmailIndexKey(), emails[i].emailAddress);
        appCache.RemoveFromIndex(ComposeEmailIndexKey(), emails[i].emailAddress);
        assert emails[..i + 1][..i] == emails[..i];
        assert EmailUnindexCommands(emails[..i + 1]) == done + [c];
        ApplySnoc(s0, done, c);
        i := i + 1;
      }
      assert emails[..i] == emails;
    }

    /** Every user the users index tracks, over one scan of the index, with read-repair of stale members. */
    method GetAllUsersInCache(scan: seq<string>) returns (users: seq<Option<User>>)
      requires appCache.Valid()
      modifies appCache
      ensures appCache.Valid()
      ensures users == EnumerateResult(appCache.codec, old(appCache.State()), ComposeIndexKey(), scan)
      ensures appCache.trace == old(appCache.trace) + EnumerateCommands(old(appCache.State()), ComposeIndexKey(), scan)
      ensures appCache.State() == Apply(old(appCache.State()), EnumerateCommands(old(appCache.State()), ComposeIndexKey(), scan))
    {
      users := appCache.GetAllIndexedItemsInCache(ComposeIndexKey(), scan);
    }

    /** The user the email index points at, read without an index name. */
    method GetByEmail(emailAddress: string) returns (r: Option<User>)
      requires appCache.Valid()
      modifies appCache
      ensures appCache.Valid()
      ensures appCache.State() == old(appCache.State()) && appCache.trace == old(appCache.trace)
      ensures r == GetItemViaIndexResult(appCache.codec, old(appCache.State()), ComposeEmailIndexKey(), emailAddress)
    {
      r := appCache.GetItemViaIndex(ComposeEmailIndexKey(), emailAddress);
    }

    /** Empties the whole store. */
    method ClearCache()
      requires appCache.Valid()
      modifies appCache
      ensures appCache.Valid()
      ensures appCache.State() == Empty
      ensures appCache.trace == old(appCache.trace) + [FlushAll]
    {
      appCache.ClearCache();
    }
  }
}
