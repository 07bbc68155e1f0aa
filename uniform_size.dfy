/**
 * `UniformPropertyType::get_size`: the byte size of a uniform type, without padding.
 *
 * `Size` is the exact size over unbounded naturals. `GetSize` is the function as the source
 * computes it, in `u64` arithmetic; it folds with ordinary `+` and `*`, which wrap around
 * at 2^64 when overflow checks are off (release builds). The two agree modulo 2^64, and so
 * exactly whenever the size fits in a `u64`.
 */
module UniformSize {

  const U64_LIMIT: nat := 0x1_0000_0000_0000_0000

  type u64 = x: nat | x < U64_LIMIT

  /** `usize` on a 64-bit target. */
  type usize = u64

  datatype UniformProperty = UniformProperty(name: string, propertyType: UniformPropertyType)

  datatype UniformPropertyType =
    | Int
    | Float
    | UVec4
    | Vec2
    | Vec3
    | Vec4
    | Mat3
    | Mat4
    | Struct(properties: seq<UniformProperty>)
    | Array(element: UniformPropertyType, length: usize)

  /** The exact byte size of a uniform type; every component is four bytes wide, so it is a multiple of four. */
  function Size(t: UniformPropertyType): (r: nat)
    ensures r % 4 == 0
    decreases t
  {
    match t
    case Int => 4
    case Float => 4
    case UVec4 => 4 * 4
    case Vec2 => 4 * 2
    case Vec3 => 4 * 3
    case Vec4 => 4 * 4
    case Mat3 => 4 * 4 * 3
    case Mat4 => 4 * 4 * 4
    case Struct(properties) => FieldsSize(properties)
    case Array(element, length) =>
      var size := Size(element);
      assert size * length == 4 * ((size / 4) * length);
      size * length
  }

  /** The sum of the sizes of the fields, in field order. */
  function FieldsSize(properties: seq<UniformProperty>): (r: nat)
    ensures r % 4 == 0
    decreases properties
  {
    if properties == [] then 0 else Size(properties[0].propertyType) + FieldsSize(properties[1..])
  }

  /** `u64` addition without overflow checks: exact while the sum fits, else the sum less 2^64. */
  function WrappingAdd(a: u64, b: u64): (r: u64)
    ensures a + b < U64_LIMIT ==> r == a + b
    ensures a + b >= U64_LIMIT ==> r == a + b - U64_LIMIT
  {
    (a + b) % U64_LIMIT
  }

  /** `u64` multiplication without overflow checks: exact while the product fits, else congruent to it modulo 2^64. */
  function WrappingMul(a: u64, b: u64): (r: u64)
    ensures a * b < U64_LIMIT ==> r == a * b
    ensures (a * b - r) % U64_LIMIT == 0
  {
    (a * b) % U64_LIMIT
  }

  /** `get_size` in `u64` arithmetic: the exact size, reduced modulo 2^64. */
  function GetSize(t: UniformPropertyType): (r: u64)
    ensures r == Size(t) % U64_LIMIT
    decreases t
  {
    match t
    case Int => 4
    case Float => 4
    case UVec4 => 4 * 4
    case Vec2 => 4 * 2
    case Vec3 => 4 * 3
    case Vec4 => 4 * 4
    case Mat3 => 4 * 4 * 3
    case Mat4 => 4 * 4 * 4
    case Struct(properties) =>
      var r := FoldSizes(0, properties);
      assert r == FieldsSize(properties) % U64_LIMIT;
      r
    case Array(element, length) =>
      var r := WrappingMul(GetSize(element), length);
      MulMod(Size(element), length);
      r
  }

  /** `.map(|p| p.property_type.get_size()).fold(total, |total, size| total + size)`. */
  function FoldSizes(total: u64, properties: seq<UniformProperty>): (r: u64)
    ensures r == (total + FieldsSize(properties)) % U64_LIMIT
    decreases properties
  {
    if properties == [] then total
    else
      var size := GetSize(properties[0].propertyType);
      var r := FoldSizes(WrappingAdd(total, size), properties[1..]);
      AddMod(total, Size(properties[0].propertyType), FieldsSize(properties[1..]));
      r
  }

  // ---------------------------------------------------------------------------------------
  // Modular arithmetic
  // ---------------------------------------------------------------------------------------

  lemma ShiftMod(q: int, y: int)
    ensures (q * U64_LIMIT + y) % U64_LIMIT == y % U64_LIMIT
  {
  }

  /** Reducing a summand (the second one, then the running total) does not change the sum modulo 2^64. */
  lemma AddMod(total: nat, size: nat, rest: nat)
    ensures ((total + size % U64_LIMIT) % U64_LIMIT + rest) % U64_LIMIT == (total + size + rest) % U64_LIMIT
  {
    var a := total + size % U64_LIMIT;
    ShiftMod(size / U64_LIMIT, a);
    ShiftMod(a / U64_LIMIT, a % U64_LIMIT + rest);
    ShiftMod(size / U64_LIMIT, a + rest);
  }

  /** Reducing a factor does not change the product modulo 2^64. */
  lemma MulMod(a: nat, n: nat)
    ensures (a % U64_LIMIT) * n % U64_LIMIT == a * n % U64_LIMIT
  {
    var q := a / U64_LIMIT;
    var r := a % U64_LIMIT;
    assert a == q * U64_LIMIT + r;
    assert a * n == (q * n) * U64_LIMIT + r * n by {
      assert a * n == (q * U64_LIMIT + r) * n;
      assert (q * U64_LIMIT + r) * n == q * U64_LIMIT * n + r * n;
    }
    ShiftMod(q * n, r * n);
  }

  // ---------------------------------------------------------------------------------------
  // Properties of the size
  // ---------------------------------------------------------------------------------------

  /** Whenever the exact size fits in a `u64`, `get_size` returns it. */
  lemma GetSizeExact(t: UniformPropertyType)
    requires Size(t) < U64_LIMIT
    ensures GetSize(t) == Size(t)
  {
    assert Size(t) % U64_LIMIT == Size(t);
  }

  /** The size of a struct whose fields are those of two structs is the sum of their sizes. */
  lemma {:induction false} StructConcat(front: seq<UniformProperty>, back: seq<UniformProperty>)
    ensures Size(Struct(front + back)) == Size(Struct(front)) + Size(Struct(back))
    decreases |front|
  {
    if front != [] {
      assert (front + back)[1..] == front[1..] + back;
      StructConcat(front[1..], back);
    } else {
      assert front + back == back;
    }
  }

  /** An array of `n + m` elements is as large as an array of `n` and one of `m` together. */
  lemma ArrayConcat(element: UniformPropertyType, n: usize, m: usize)
    requires n + m < U64_LIMIT
    ensures Size(Array(element, n + m)) == Size(Array(element, n)) + Size(Array(element, m))
  {
    assert Size(element) * (n + m) == Size(element) * n + Size(element) * m;
  }

  /** A float followed by a vec3 takes 16 bytes. */
  lemma FloatAndVec3Example()
    ensures GetSize(Struct([UniformProperty("a", Float), UniformProperty("b", Vec3)])) == 16
  {
    var fields := [UniformProperty("a", Float), UniformProperty("b", Vec3)];
    assert fields[1..] == [UniformProperty("b", Vec3)];
    assert fields[1..][1..] == [];
    assert FieldsSize(fields) == 16;
  }

  /** Three mat4s take 192 bytes. */
  lemma Mat4ArrayExample()
    ensures GetSize(Array(Mat4, 3)) == 192
  {
    assert Size(Array(Mat4, 3)) == 192;
  }

  /** Two vec2s followed by an int take 20 bytes. */
  lemma NestedExample()
    ensures GetSize(Struct([UniformProperty("m", Array(Vec2, 2)), UniformProperty("f", Int)])) == 20
  {
    var fields := [UniformProperty("m", Array(Vec2, 2)), UniformProperty("f", Int)];
    assert Size(Array(Vec2, 2)) == 16;
    assert fields[1..] == [UniformProperty("f", Int)];
    assert fields[1..][1..] == [];
    assert FieldsSize(fields) == 20;
  }

  /** A struct without fields, and an array of no elements, take no space. */
  lemma EmptyExamples(element: UniformPropertyType)
    ensures GetSize(Struct([])) == 0
    ensures GetSize(Array(element, 0)) == 0
  {
  }
}
