# RedisSandbox indexed cache, modelled in Dafny

This project models the core of RedisSandbox, a small C# library that caches objects in Redis.

- **The indexed cache** (`RedisCache`) stores each object as encoded text under a primary key.
- A **tracking index** is a Redis set holding the keys stored "in" it. Point reads repair it: they drop a key whose entry is gone and re-add one that is present. Enumerating the index drops every stale member it meets.
- A **custom index** is a Redis hash from a secondary key (an email address, an id) to a primary key. `GetItemViaIndex` follows it in two hops.
- **The user facade** (`UserCache`) composes keys from a user name and keeps the users index, an email index and a user-id index up to date on every put and remove.
- **The `Email` entity** has field-wise equality, the `==`/`!=` operators, and a 32-bit hash code that must agree with that equality.

## How the model is built

- `wrappers.dfy` (module `Wrappers`): `Option`, the model's `null`.
- `store.dfy` (module `Store`): the Redis database as the cache sees it.
  - Three maps: string entries, sets and hashes.
  - The write commands the cache sends, as values (`Command`).
  - `Step` and `Apply` run commands.
  - Redis drops a set or hash together with its last element; `Wf` says none is ever empty, and every command keeps it.
- `cache.dfy` (module `Cache`): `RedisCache<V>` is a class whose fields are the three store maps.
  - Every operation has a specification function giving the commands it sends, or the value it returns, from its inputs and the store it reads.
  - Each method is proved to send exactly those commands, in that order: a ghost `trace` records every write.
  - Each method also leaves the store at `Apply(old store, commands)`.
  - What the commands mean is proved in lemmas about the specification functions.
  - The serializer is a `Codec`. Lemmas that need a faithful serializer assume `Lawful`: a value encodes to non-empty text that decodes back to it.
- `email.dfy` (module `Identity`): `Email` as a value, with C# 32-bit `unchecked` arithmetic written out.
- `user_cache.dfy` (module `UserCaching`):
  - the key composers;
  - the decimal text of an id;
  - the command lists of `PutUserInCache` and `RemoveUserFromCache`;
  - class `UserCache`, which holds one `RedisCache<User>`. Its two `ForEach` loops over a user's emails are the methods `IndexEmails` and `UnindexEmails`.

Inputs the model takes as parameters:
- The members the `SSCAN` cursor returns are a parameter `scan`, which may repeat members. `FullScanRepairsIndex` states what follows when the scan covers the whole index.
- Key expiry (a TTL running out) is the method `Expire`. It deletes an entry without going through the cache.

A custom-index lookup whose primary entry is gone leaves the hash field in place (RedisSandbox.Console/Core/Cache/RedisCache.cs:112-116), so `GetItemViaIndex` changes nothing. No operation enumerates a whole custom index.

## Model

| member | source | states |
|---|---|---|
| Store.Step | RedisSandbox.Console/Core/Cache/RedisCache.cs:25-129 | every store command the cache sends keeps the store well-formed: no set or hash is left empty |
| Store.Apply | RedisSandbox.Console/Core/Cache/RedisCache.cs:53-75 | a sequence of commands, run in order, keeps the store well-formed |
| Store.ApplyConcat | RedisSandbox.Console/Core/Cache/RedisCache.cs:53-75 | running two command sequences one after the other is running their concatenation |
| Store.SetRemoveEffect | RedisSandbox.Console/Core/Cache/RedisCache.cs:43 | SREM removes exactly one member of one set and leaves entries and hashes alone |
| Store.HashSetEffect | RedisSandbox.Console/Core/Cache/RedisCache.cs:127-130 | HSET sets exactly one field of one hash, overwriting it, and changes nothing else |
| Store.HashDeleteEffect | RedisSandbox.Console/Identity/Cache/UserCache.cs:44-45 | HDEL removes exactly one field of one hash and changes nothing else |
| Store.KeyDeleteIdempotent | RedisSandbox.Console/Core/Cache/RedisCache.cs:57 | after DEL the key exists nowhere, and a second DEL changes nothing |
| Store.FlushAllEmpties | RedisSandbox.Console/Core/Cache/RedisCache.cs:118-125 | after flushing every server no key exists |
| Cache.PutRejected | RedisSandbox.Console/Core/Cache/RedisCache.cs:65-66 | Put with an empty key or a null value leaves the store unchanged |
| Cache.PutEffect | RedisSandbox.Console/Core/Cache/RedisCache.cs:63-75 | Put writes exactly the encoded entry; with an index name it also adds the key to that index; nothing else changes |
| Cache.PutThenGetValue | RedisSandbox.Console/Core/Cache/RedisCache.cs:35-75 | after Put, GetValue of the key returns the value put, and its index re-add is a no-op |
| Cache.RemoveEffect | RedisSandbox.Console/Core/Cache/RedisCache.cs:53-61 | Remove of an empty key changes nothing; otherwise the key exists nowhere afterwards and is gone from the index; other sets and entries are kept, and with no index name the sets only lose the key |
| Cache.RemoveIdempotent | RedisSandbox.Console/Core/Cache/RedisCache.cs:53-61 | removing twice leaves the same store as removing once |
| Cache.ReadRepairEffect | RedisSandbox.Console/Core/Cache/RedisCache.cs:37-50 | a point read drops a key with an empty entry from the index and re-adds a key that has one; it changes no entry, no hash and no other set |
| Cache.DedupDistinctAndComplete | RedisSandbox.Console/Core/Cache/RedisCache.cs:84-89 | the seen-list filter hands each scanned member to the loop body exactly once: no repeats, none missed |
| Cache.DedupInScanOrder | RedisSandbox.Console/Core/Cache/RedisCache.cs:84-89 | the seen-list hands members to the loop body in the order of their first appearance in the scan |
| Cache.LiveMembers | RedisSandbox.Console/Core/Cache/RedisCache.cs:90-100 | the members whose values are yielded are exactly the scanned members with a non-empty entry, kept distinct |
| Cache.LiveIsSubsequence | RedisSandbox.Console/Core/Cache/RedisCache.cs:90-100 | the live members keep the order they had in the scan: they are a subsequence of it |
| Cache.YieldsAreLiveValues | RedisSandbox.Console/Core/Cache/RedisCache.cs:96-99 | the enumeration yields one value per live member, in scan order: the decoding of that member's entry |
| Cache.RepairsEffect | RedisSandbox.Console/Core/Cache/RedisCache.cs:94-95 | the enumeration's SREMs remove exactly the stale members from the index and touch nothing else |
| Cache.StaleOfDedup | RedisSandbox.Console/Core/Cache/RedisCache.cs:87 | skipping members already seen does not change which members count as stale |
| Cache.EnumerationEffect | RedisSandbox.Console/Core/Cache/RedisCache.cs:77-110 | the whole enumeration: a no-op for an empty or missing index; otherwise it yields the live members' values, each once, and removes the stale ones |
| Cache.FullScanRepairsIndex | RedisSandbox.Console/Core/Cache/RedisCache.cs:87-101 | when the scan covers the index, only live members remain in it afterwards, and every live member was yielded |
| Cache.RepairedIndexEnumeratesWithoutChange | RedisSandbox.Console/Core/Cache/RedisCache.cs:87-101 | enumerating an index that holds only live members changes nothing, so a second full enumeration is a no-op |
| Cache.RedisCache.constructor | RedisSandbox.Console/Core/Cache/RedisCache.cs:13 | connects to a store that may already hold data; nothing has been sent yet |
| Cache.RedisCache.Execute | RedisSandbox.Console/Core/Cache/RedisCache.cs:11 | sending one command applies exactly that command and records it |
| Cache.RedisCache.Expire | RedisSandbox.Console/Core/Cache/RedisCache.cs:68-71 | expiry deletes one entry behind the cache's back: nothing else changes and nothing is recorded |
| Cache.RedisCache.Contains | RedisSandbox.Console/Core/Cache/RedisCache.cs:15 | true exactly when the key names an entry, a set or a hash |
| Cache.RedisCache.GetValue | RedisSandbox.Console/Core/Cache/RedisCache.cs:35-51 | returns nothing for an empty key or an empty entry, else the decoded entry; sends exactly the read-repair commands, so the index loses the key on a miss and holds it on a hit |
| Cache.RedisCache.Get | RedisSandbox.Console/Core/Cache/RedisCache.cs:17-33 | the same result and the same index repair as GetValue |
| Cache.RedisCache.Remove | RedisSandbox.Console/Core/Cache/RedisCache.cs:53-61 | sends DEL then SREM (no SREM without an index name, nothing for an empty key); afterwards the key exists nowhere and is not in the index |
| Cache.RedisCache.Put | RedisSandbox.Console/Core/Cache/RedisCache.cs:63-75 | sends SET with the optional expiry, then SADD when an index is named; the new entries and sets are stated outright; nothing is sent for an empty key or a null value |
| Cache.RedisCache.GetAllIndexedItemsInCache | RedisSandbox.Console/Core/Cache/RedisCache.cs:77-110 | yields the enumeration's values and sends its SREMs, in order; entries and hashes are unchanged; an empty or missing index yields nothing and changes nothing |
| Cache.RedisCache.ScanMembers | RedisSandbox.Console/Core/Cache/RedisCache.cs:84-101 | the loop processes the scan against a growing seen-list; it yields and repairs exactly as the specification functions say |
| Cache.RedisCache.ScanTurn | RedisSandbox.Console/Core/Cache/RedisCache.cs:87-100 | one member of the scan: skipped if seen; otherwise SREM for an empty entry, or one more decoded value |
| Cache.RedisCache.GetItemViaIndex | RedisSandbox.Console/Core/Cache/RedisCache.cs:112-116 | returns nothing when the hash field is missing or empty, else GetValue of the key it holds, read with no index name; the store is unchanged |
| Cache.RedisCache.ClearCache | RedisSandbox.Console/Core/Cache/RedisCache.cs:118-125 | the store becomes empty |
| Cache.RedisCache.SetIndex | RedisSandbox.Console/Core/Cache/RedisCache.cs:127-130 | sets exactly one field of the hash, overwriting what it held; entries and sets are unchanged |
| Cache.RedisCache.RemoveFromIndex | RedisSandbox.Console/Identity/Cache/UserCache.cs:44-45 | deletes exactly one field of the hash; entries, sets and other hashes are unchanged |
| Identity.Equals | RedisSandbox.Console/Identity/Email.cs:26-42 | false for null, true for the email itself, otherwise exactly the six-field comparison |
| Identity.EqualsObject | RedisSandbox.Console/Identity/Email.cs:71-86 | false for null and for another runtime type; for an email it agrees with `Equals(Email)` |
| Identity.OpEquality | RedisSandbox.Console/Identity/Email.cs:61 | true for two nulls, false when exactly one operand is null, otherwise field-wise equality |
| Identity.OpInequality | RedisSandbox.Console/Identity/Email.cs:62 | false for two nulls, true when exactly one operand is null, otherwise field-wise inequality |
| Identity.Wrap32 | RedisSandbox.Console/Identity/Email.cs:52-58 | the unchecked result is congruent to the exact one modulo 2^32, and equal to it when it fits in 32 bits |
| Identity.Mul32 | RedisSandbox.Console/Identity/Email.cs:55-56 | unchecked multiplication: congruent to the exact product modulo 2^32 |
| Identity.Xor32 | RedisSandbox.Console/Identity/Email.cs:55-56 | the bit pattern of the result is the exclusive or of the operands' patterns |
| Identity.BitsRoundTrip | RedisSandbox.Console/Identity/Email.cs:52-58 | reading a 32-bit pattern as a signed integer and back gives the pattern |
| Identity.EqualsIsEquivalence | RedisSandbox.Console/Identity/Email.cs:36-41 | `Equals` is reflexive, symmetric and transitive |
| Identity.HashAgreesWithEquals | RedisSandbox.Console/Identity/Email.cs:36-57 | emails that are `Equals` have the same hash code |
| Identity.EqualityFormsAgree | RedisSandbox.Console/Identity/Email.cs:61-85 | `Equals(object)` on an email and `==` on two non-null emails agree with `Equals(Email)` |
| Identity.OpEqualitySymmetric | RedisSandbox.Console/Identity/Email.cs:61 | `==` gives the same answer with its operands swapped, nulls included |
| Identity.OffsetIgnoredByEquals | RedisSandbox.Console/Identity/Email.cs:41 | two readings of the same instant in different time zones are different values, yet their emails are `Equals` |
| Identity.GetHashCode | RedisSandbox.Console/Identity/Email.cs:50-59 | the source's formula `((Id * 397) ^ UserId) * 397 ^ TenantId`, built from `Mul32` and `Xor32`, whose contracts give its 32-bit meaning; its properties are carried by `HashAgreesWithEquals`, `HashExample` and `HashWrapsAround` |
| Identity.HashExample | RedisSandbox.Console/Identity/Email.cs:54-57 | the hash of Id 1, UserId 2, TenantId 3 is ((1·397) xor 2)·397 xor 3 = 158400 |
| Identity.HashWrapsAround | RedisSandbox.Console/Identity/Email.cs:52-55 | `int.MaxValue * 397` wraps to 0x7FFFFE73 |
| UserCaching.ComposeKey | RedisSandbox.Console/Identity/Cache/UserCache.cs:63 | the key is the prefix `UserEntity_` followed by exactly the key item |
| UserCaching.KeyItem | RedisSandbox.Console/Identity/Cache/UserCache.cs:63 | a key has a key item exactly when it starts with `UserEntity_`, and composing that item gives the key back: every such key is some user name's key |
| UserCaching.ComposeKeyRoundTrip | RedisSandbox.Console/Identity/Cache/UserCache.cs:63 | a composed key is never empty, and the user name can be read back from it |
| UserCaching.ComposeKeyInjective | RedisSandbox.Console/Identity/Cache/UserCache.cs:63 | different user names give different primary keys |
| UserCaching.ComposeIndexKey | RedisSandbox.Console/Identity/Cache/UserCache.cs:65 | the users index name is non-empty and is no user's primary key |
| UserCaching.ComposeEmailIndexKey | RedisSandbox.Console/Identity/Cache/UserCache.cs:67 | the email index name is non-empty and is no user's primary key |
| UserCaching.ComposeUserIdIndexKey | RedisSandbox.Console/Identity/Cache/UserCache.cs:69 | the id index name is non-empty and is no user's primary key |
| UserCaching.IndexNamesDistinct | RedisSandbox.Console/Identity/Cache/UserCache.cs:65-69 | the three index names are pairwise distinct |
| UserCaching.NatToString | RedisSandbox.Console/Identity/Cache/UserCache.cs:19 | the decimal text of a number is non-empty, made of digits only, "0" for zero and without a leading zero otherwise |
| UserCaching.NatToStringRoundTrip | RedisSandbox.Console/Identity/Cache/UserCache.cs:19 | parsing a number's decimal digits gives the number back |
| UserCaching.IntToString | RedisSandbox.Console/Identity/Cache/UserCache.cs:19 | `id.ToString()` starts with `-` exactly for a negative id, is digits otherwise (at least one after the sign), is "0" for zero and has no leading zero otherwise; with `IntToStringRoundTrip` this is the canonical decimal text |
| UserCaching.IntToStringRoundTrip | RedisSandbox.Console/Identity/Cache/UserCache.cs:19-45 | parsing an id's text, minus sign included, gives the id back |
| UserCaching.IntToStringInjective | RedisSandbox.Console/Identity/Cache/UserCache.cs:38-45 | different ids have different fields in the user id index |
| UserCaching.EmailIndexEffect | RedisSandbox.Console/Identity/Cache/UserCache.cs:35 | the email `ForEach` points every address of the user at the user's key and changes nothing else |
| UserCaching.EmailUnindexEffect | RedisSandbox.Console/Identity/Cache/UserCache.cs:44 | the email `ForEach` removes every address of the user from the email index and changes nothing else |
| UserCaching.PutUserState | RedisSandbox.Console/Identity/Cache/UserCache.cs:29-39 | after PutUserInCache the strings, the sets and every hash are given outright: the user's entry is written, its key joins the users index, its addresses and its id point at its key, and nothing else changes |
| UserCaching.PutUserEffect | RedisSandbox.Console/Identity/Cache/UserCache.cs:15-57 | after PutUserInCache the user is tracked and found by user name, by each email address and by id |
| UserCaching.RemoveUserState | RedisSandbox.Console/Identity/Cache/UserCache.cs:41-46 | after RemoveUserFromCache the user's entry is deleted and its key leaves the users index, its addresses and its id leave the custom indexes; every other entry, set member, hash and field stays |
| UserCaching.RemoveUserEffect | RedisSandbox.Console/Identity/Cache/UserCache.cs:41-46 | after RemoveUserFromCache the user's key exists nowhere and is not tracked; its email and id fields are gone, and none of the three lookups finds it |
| UserCaching.UserCache.constructor | RedisSandbox.Console/Identity/Cache/UserCache.cs:13 | the facade works over the cache it is given |
| UserCaching.UserCache.GetById | RedisSandbox.Console/Identity/Cache/UserCache.cs:15-21 | the two-hop lookup through the id index, with the id's decimal text as field; the store is unchanged |
| UserCaching.UserCache.GetByUserName | RedisSandbox.Console/Identity/Cache/UserCache.cs:23-27 | GetValue of the composed key, with read-repair of the users index |
| UserCaching.UserCache.PutUserInCache | RedisSandbox.Console/Identity/Cache/UserCache.cs:29-39 | sends exactly: the tracked Put with a thirty-day expiry, one HSET per email in list order, then the id HSET |
| UserCaching.UserCache.IndexEmails | RedisSandbox.Console/Identity/Cache/UserCache.cs:35 | the loop sends one HSET of the email index per email, in list order |
| UserCaching.UserCache.RemoveUserFromCache | RedisSandbox.Console/Identity/Cache/UserCache.cs:41-46 | sends exactly: the tracked Remove, one HDEL per email in list order, then the id HDEL |
| UserCaching.UserCache.UnindexEmails | RedisSandbox.Console/Identity/Cache/UserCache.cs:44 | the loop sends one HDEL of the email index per email, in list order |
| UserCaching.UserCache.GetAllUsersInCache | RedisSandbox.Console/Identity/Cache/UserCache.cs:48-51 | the enumeration of the users index, with its yields and repairs |
| UserCaching.UserCache.GetByEmail | RedisSandbox.Console/Identity/Cache/UserCache.cs:53-57 | the two-hop lookup through the email index; the store is unchanged |
| UserCaching.UserCache.ClearCache | RedisSandbox.Console/Identity/Cache/UserCache.cs:59 | the store becomes empty |

## Left out

- The connection to Redis, the connection string and dependency injection: the cache is handed a store value.
- One Redis keyspace shared by strings, sets and hashes, and WRONGTYPE errors. The model keeps three separate maps. `KeyExists` and `DEL` still span all three.
- JSON serialization is the abstract `Codec`, so malformed JSON never throws. Lemmas that need a faithful serializer require `Lawful` of it.
- Cache.RedisCache.Get: the source deserializes to an untyped `object`. The model decodes with the cache's one codec, so Get returns what GetValue returns.
- A missing entry (nil) and an empty one both read as `""`. Every caller tests `IsNullOrEmpty`, so the two are never told apart. Null strings are not modelled.
- Cache.RedisCache.Put: the expiry is a whole number of seconds, `Option<nat>`. The source's `TimeSpan? timeout` can also be zero, negative or shorter than a second. Redis refuses a zero or negative expiry ("invalid expire time"), so the source's `Put` then throws and sends no SADD. The model writes the entry for `Some(0)` and cannot express the other cases.
- Real TTL timers and the clock: expiry is the explicit `Expire`, and `BaseEntity.CreatedOn` (which reads the clock) is not modelled.
- Cache.RedisCache.GetAllIndexedItemsInCache: `yield` is lazy, but the model runs the enumeration to completion. A caller that stops early sends fewer SREMs than modelled.
- `SSCAN`'s cursor protocol: it is the parameter `scan`. The scan guarantees that every member present throughout the scan appears; `FullScanRepairsIndex` takes that as its requirement.
- Concurrency, and other clients writing between two commands of one operation.
- `UserCache` calls `SetCustomIndex`, `RemoveFromCustomIndex` and `GetAllTrackedItemsInCache`, which `IAppCache` does not declare. The model maps them to `SetIndex`, to an HDEL of one hash field (`RemoveFromIndex`), and to `GetAllIndexedItemsInCache`.
- `User` keeps only its id, user name and emails. User.cs is not part of this model.
- A null user or a null `Emails` list (both throw in the source): the model's values are never null.
- `Email`'s reference-equality shortcuts: emails are values, so "the same reference" becomes "the same value". That can only make `Equals` true where field-wise comparison already is.
- A subclass of `Email` passed to `Equals(object)` counts as another runtime type (`OfOtherType`).
- A time-zone offset outside ±14 hours, or a tick count outside `DateTimeOffset`'s range: the model does not bound either.
- `int.ToString()` is modelled for the invariant culture: a `-` sign and ASCII digits.
