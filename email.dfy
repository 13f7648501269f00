/**
 * The `Email` entity of the identity model: its field-wise equality, the equality
 * operators built on it, and its 32-bit hash code. An email is a value here; the
 * reference test the source makes first is subsumed by field-wise comparison of
 * a value with itself.
 */
module Identity {
  import opened Wrappers

  /** A 32-bit two's-complement integer, as C# `int`. */
  newtype int32 = x: int | -0x8000_0000 <= x < 0x8000_0000

  /** A clock reading with its offset from UTC in minutes; a tick is 100 nanoseconds. */
  datatype DateTimeOffset = DateTimeOffset(clockTicks: int, offsetMinutes: int)

  /** The instant a reading denotes, in UTC ticks. */
  function UtcTicks(d: DateTimeOffset): int {
    d.clockTicks - d.offsetMinutes * 600_000_000
  }

  /** `DateTimeOffset.Equals`: two readings are equal when they denote the same instant, whatever their offsets. */
  predicate SameInstant(a: DateTimeOffset, b: DateTimeOffset) {
    UtcTicks(a) == UtcTicks(b)
  }

  /** An email address of a user within a tenant; `id` and `lastModifiedOn` are the base-entity fields. */
  datatype Email = Email(
    id: int32,
    emailAddress: string,
    isVerified: bool,
    userId: int32,
    tenantId: int32,
    lastModifiedOn: DateTimeOffset)

  /** The six comparisons `Equals(Email)` makes once neither reference test has decided. */
  predicate FieldwiseEqual(a: Email, b: Email) {
    && a.id == b.id
    && a.tenantId == b.tenantId
    && a.emailAddress == b.emailAddress
    && a.isVerified == b.isVerified
    && a.userId == b.userId
    && SameInstant(a.lastModifiedOn, b.lastModifiedOn)
  }

  /** `Equals(Email)`: false for null, true for the email itself, otherwise field-wise. */
  function Equals(self: Email, other: Option<Email>): (r: bool)
    ensures other == None ==> !r
    ensures other == Some(self) ==> r
    ensures other.Some? ==> (r <==> FieldwiseEqual(self, other.value))
  {
    if other == None then false
    else if other.value == self then true
    else FieldwiseEqual(self, other.value)
  }

  /** What `Equals(object)` can be handed: null, an `Email`, or an object of another runtime type. */
  datatype Object = Null | AnEmail(email: Email) | OfOtherType

  /** `Equals(object)`: false for null and for another runtime type, otherwise `Equals(Email)`. */
  function EqualsObject(self: Email, obj: Object): (r: bool)
    ensures obj == Null || obj == OfOtherType ==> !r
    ensures obj.AnEmail? ==> (r <==> Equals(self, Some(obj.email)))
  {
    match obj
    case Null => false
    case OfOtherType => false
    case AnEmail(e) => if e == self then true else Equals(self, Some(e))
  }

  /**
   * `operator ==`: the static `object.Equals(left, right)`, which is true for two nulls,
   * false when exactly one is null, and otherwise the left operand's `Equals(object)`.
   */
  function OpEquality(left: Option<Email>, right: Option<Email>): (r: bool)
    ensures left == None && right == None ==> r
    ensures left.None? != right.None? ==> !r
    ensures left.Some? && right.Some? ==> (r <==> FieldwiseEqual(left.value, right.value))
  {
    if left == right then true
    else if left == None || right == None then false
    else EqualsObject(left.value, AnEmail(right.value))
  }

  /** `operator !=`: the negation of the static `object.Equals(left, right)`. */
  function OpInequality(left: Option<Email>, right: Option<Email>): (r: bool)
    ensures left == None && right == None ==> !r
    ensures left.None? != right.None? ==> r
    ensures left.Some? && right.Some? ==> (r <==> !FieldwiseEqual(left.value, right.value))
  {
    !OpEquality(left, right)
  }

  // ----- Unchecked 32-bit arithmetic -----

  const TwoTo32: int := 0x1_0000_0000

  /** The 32-bit two's-complement value congruent to `x`: what an `unchecked` C# expression keeps. */
  function Wrap32(x: int): (r: int32)
    ensures (r as int - x) % TwoTo32 == 0
    ensures -0x8000_0000 <= x < 0x8000_0000 ==> r as int == x
  {
    var u := x % TwoTo32;
    if u < 0x8000_0000 then u as int32 else (u - TwoTo32) as int32
  }

  /** The bit pattern of a 32-bit integer. */
  function Bits(x: int32): bv32 {
    (if x < 0 then x as int + TwoTo32 else x as int) as bv32
  }

  /** The 32-bit integer with a given bit pattern. */
  function FromBits(b: bv32): int32 {
    var u := b as int;
    if u < 0x8000_0000 then u as int32 else (u - TwoTo32) as int32
  }

  /** Reading a bit pattern as an integer and back gives the pattern. */
  lemma BitsRoundTrip(b: bv32)
    ensures Bits(FromBits(b)) == b
  {
    var u := b as int;
    assert u as bv32 == b;
  }

  /** `a * b` wrapped to 32 bits. */
  function Mul32(a: int32, b: int32): (r: int32)
    ensures (r as int - a as int * b as int) % TwoTo32 == 0
  {
    Wrap32(a as int * b as int)
  }

  /** `a ^ b` on 32-bit integers: the integer whose pattern is the exclusive or of theirs. */
  function Xor32(a: int32, b: int32): (r: int32)
    ensures Bits(r) == Bits(a) ^ Bits(b)
  {
    BitsRoundTrip(Bits(a) ^ Bits(b));
    FromBits(Bits(a) ^ Bits(b))
  }

  /**
   * `GetHashCode`: `((Id * 397) ^ UserId) * 397 ^ TenantId`, unchecked. The tenant id is
   * mixed in last, so xoring it out again recovers the wrapped second product.
   */
  function GetHashCode(e: Email): (r: int32)
    ensures Bits(r) ^ Bits(e.tenantId) == Bits(Mul32(Xor32(Mul32(e.id, 397), e.userId), 397))
  {
    Xor32(Mul32(Xor32(Mul32(e.id, 397), e.userId), 397), e.tenantId)
  }

  // ----- Lemmas -----

  /** `Equals` is an equivalence on emails. */
  lemma EqualsIsEquivalence(a: Email, b: Email, c: Email)
    ensures Equals(a, Some(a))
    ensures Equals(a, Some(b)) ==> Equals(b, Some(a))
    ensures Equals(a, Some(b)) && Equals(b, Some(c)) ==> Equals(a, Some(c))
  {
  }

  /** Emails that are `Equals` have the same hash code: the hash reads only compared fields. */
  lemma HashAgreesWithEquals(a: Email, b: Email)
    requires Equals(a, Some(b))
    ensures GetHashCode(a) == GetHashCode(b)
  {
  }

  /** `Equals(object)` on a boxed email and `==` on two non-null emails agree with `Equals(Email)`. */
  lemma EqualityFormsAgree(a: Email, b: Email)
    ensures EqualsObject(a, AnEmail(b)) == Equals(a, Some(b))
    ensures OpEquality(Some(a), Some(b)) == Equals(a, Some(b))
  {
  }

  /** `==` is symmetric, null operands included. */
  lemma OpEqualitySymmetric(left: Option<Email>, right: Option<Email>)
    ensures OpEquality(left, right) == OpEquality(right, left)
  {
  }

  /** Two readings of the same instant in different zones are equal, so their emails may be `Equals`. */
  lemma OffsetIgnoredByEquals(a: Email)
    ensures var shifted := a.(lastModifiedOn := DateTimeOffset(a.lastModifiedOn.clockTicks + 600_000_000, a.lastModifiedOn.offsetMinutes + 1));
      shifted != a && Equals(a, Some(shifted))
  {
  }

  /** The hash of an email with Id 1, UserId 2 and TenantId 3: ((1 * 397) ^ 2) * 397 ^ 3 = 399 * 397 ^ 3. */
  lemma HashExample(e: Email)
    requires e.id == 1 && e.userId == 2 && e.tenantId == 3
    ensures GetHashCode(e) == 158400
  {
    assert Mul32(1, 397) == 397;
    assert Bits(397) == 397 && Bits(2) == 2;
    assert FromBits(399) == 399;
    assert Mul32(399, 397) == 158403;
    assert Bits(158403) == 158403 && Bits(3) == 3;
    assert FromBits(158400) == 158400;
  }

  /** Multiplication wraps: with Id `int.MaxValue` the first product already leaves the 32-bit range. */
  lemma HashWrapsAround()
    ensures Mul32(0x7FFF_FFFF, 397) == 0x7FFF_FE73
  {
  }
}
