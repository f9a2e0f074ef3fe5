/**
 The few pieces of `java.lang`, `java.util.Objects` and `java.time.Instant`
 that `Table.hashCode` relies on, with Java's 32-bit `int` arithmetic written
 out explicitly (Dafny integers are unbounded).
 */
module JavaLang {
  import opened Nullable

  const TwoTo32: int := 0x1_0000_0000
  const MinInt: int := -0x8000_0000
  const MaxInt: int := 0x7fff_ffff

  predicate IsInt(x: int) {
    MinInt <= x <= MaxInt
  }

  /** Narrowing to a Java `int`: two's-complement wrap-around modulo 2^32. */
  function ToInt(x: int): (r: int)
    ensures IsInt(r)
    ensures (x - r) % TwoTo32 == 0
    ensures IsInt(x) ==> r == x
  {
    var m := x % TwoTo32;
    if m <= MaxInt then m else m - TwoTo32
  }

  /** One step of the `31 * h + e` recurrence used by `String.hashCode` and `Arrays.hashCode`. */
  function HashStep(acc: int, e: int): (r: int)
    ensures IsInt(r)
  {
    ToInt(31 * acc + e)
  }

  /** `String.hashCode`: fold of `HashStep` over the characters, starting at 0. */
  function StringHash(s: string): (h: int)
    ensures IsInt(h)
  {
    StringHashFrom(0, s)
  }

  function StringHashFrom(acc: int, s: string): (h: int)
    ensures IsInt(h)
    decreases |s|
  {
    if s == [] then ToInt(acc) else StringHashFrom(HashStep(acc, s[0] as int), s[1..])
  }

  /** `Boolean.hashCode`. */
  function BooleanHash(b: bool): (h: int) {
    if b then 1231 else 1237
  }

  /** The hash `Objects.hash`/`Arrays.hashCode` gives a possibly-null element: 0 for null. */
  function NullableHash<T>(o: Option<T>, hash: T -> int): (h: int) {
    match o
    case Null => 0
    case Some(v) => hash(v)
  }

  /** `Objects.hash(e1, …, en)` given the elements' hash codes: start at 1, then `31 * h + e`. */
  function ObjectsHash(hashes: seq<int>): (h: int)
    ensures IsInt(h)
  {
    ObjectsHashFrom(1, hashes)
  }

  function ObjectsHashFrom(acc: int, hashes: seq<int>): (h: int)
    ensures IsInt(h)
    decreases |hashes|
  {
    if hashes == [] then ToInt(acc) else ObjectsHashFrom(HashStep(acc, hashes[0]), hashes[1..])
  }

  /** `Objects.equals(a, b)` for a class whose `equals` is `eq`: both null, or both non-null and `eq`. */
  function ObjectsEquals<T>(a: Option<T>, b: Option<T>, eq: (T, T) -> bool): (same: bool) {
    match (a, b)
    case (Null, Null) => true
    case (Some(x), Some(y)) => eq(x, y)
    case _ => false
  }

  /** A `java.time.Instant`: seconds since the epoch (a `long`) and nanoseconds of the second. */
  datatype Instant = Instant(seconds: int, nanos: int)

  /** `Instant.hashCode`: `((int) (seconds ^ (seconds >>> 32))) + 51 * nanos`, in `int` arithmetic. */
  function InstantHash(t: Instant): (h: int)
    ensures IsInt(h)
  {
    var bits := (t.seconds % 0x1_0000_0000_0000_0000) as bv64;
    var folded := bits ^ (bits >> 32);
    var low := ToInt((folded & 0xffff_ffff) as int);
    ToInt(low + ToInt(51 * t.nanos))
  }

  /**
   Weighted sum `acc * 31^n + s[0] * 31^(n-1) + … + s[n-1]` over unbounded integers:
   the formula `String.hashCode` is documented to compute, before narrowing.
   */
  function Polynomial(acc: int, s: string): (h: int)
    decreases |s|
  {
    if s == [] then acc else Polynomial(31 * acc + s[0] as int, s[1..])
  }

  lemma CongruentStep(a: int, b: int, c: int)
    requires (a - b) % TwoTo32 == 0
    ensures (31 * a + c - (31 * b + c)) % TwoTo32 == 0
  {
    var k := (a - b) / TwoTo32;
    assert a - b == TwoTo32 * k;
    assert 31 * a + c - (31 * b + c) == TwoTo32 * (31 * k);
  }

  lemma CongruentToInt(a: int, b: int)
    requires (a - b) % TwoTo32 == 0
    ensures ToInt(a) == ToInt(b)
  {
    var k := (a - b) / TwoTo32;
    assert a == b + TwoTo32 * k;
    assert a % TwoTo32 == b % TwoTo32;
  }

  /**
   Narrowing after every step gives the same `int` as narrowing the exact weighted
   sum once: `String.hashCode` is `s[0]*31^(n-1) + … + s[n-1]` modulo 2^32.
   */
  lemma {:induction false} StringHashIsPolynomial(acc: int, exact: int, s: string)
    requires (acc - exact) % TwoTo32 == 0
    ensures StringHashFrom(acc, s) == ToInt(Polynomial(exact, s))
    decreases |s|
  {
    if s == [] {
      CongruentToInt(acc, exact);
    } else {
      var c := s[0] as int;
      CongruentStep(acc, exact, c);
      var next := HashStep(acc, c);
      assert (next - (31 * exact + c)) % TwoTo32 == 0 by {
        assert ((31 * acc + c) - next) % TwoTo32 == 0;
        var k1 := ((31 * acc + c) - next) / TwoTo32;
        var k2 := (31 * acc + c - (31 * exact + c)) / TwoTo32;
        assert next - (31 * exact + c) == TwoTo32 * (k2 - k1);
      }
      StringHashIsPolynomial(next, 31 * exact + c, s[1..]);
    }
  }
}
