/** Two- and four-limb arithmetic on 64-bit words. */
module Wide128 {
  import opened Powers
  import opened Words
  import opened Primitives

  const B32: nat := 0x1_0000_0000

  datatype U128 = U128(v64: u64, v0: u64) {
    function V(): nat {
      v64 * 0x1_0000_0000_0000_0000 + v0
    }
  }

  datatype U256 = U256(v192: u64, v128: u64, v64: u64, v0: u64)

  function Value128(v64: int, v0: int): int {
    v64 * 0x1_0000_0000_0000_0000 + v0
  }

  function Wrap128(x: int): nat {
    x % 0x1_0000_0000_0000_0000_0000_0000_0000_0000
  }

  lemma NumeratorIs(v64: u64)
    ensures Value128(v64, 0) == v64 * 0x1_0000_0000_0000_0000 >= 0
  {
  }

  lemma LimbsUnique(z: U128, x: int, k: int)
    requires x == Value128(z.v64, z.v0) + k * 0x1_0000_0000_0000_0000_0000_0000_0000_0000
    ensures Wrap128(x) == z.V()
  {
  }

  lemma Carry(x: u64, y: int)
    requires 0 <= y <= 0x1_0000_0000_0000_0000
    ensures var z := Wrap64(x as int + y);
            z == x as int + y - Bit(z < x || y > 0xFFFF_FFFF_FFFF_FFFF) * 0x1_0000_0000_0000_0000
  {
  }

  lemma Borrow(x: u64, y: u64)
    ensures Wrap64(x as int - y as int) == x as int - y as int + Bit(x < y) * 0x1_0000_0000_0000_0000
  {
  }

  lemma LimbsSum(a64: int, a0: int, b64: int, b0: int, v64: int, v0: int, c0: int, c64: int)
    requires v0 == a0 + b0 - c0 * 0x1_0000_0000_0000_0000
    requires v64 == a64 + b64 + c0 - c64 * 0x1_0000_0000_0000_0000
    ensures Value128(a64, a0) + Value128(b64, b0)
         == Value128(v64, v0) + c64 * 0x1_0000_0000_0000_0000_0000_0000_0000_0000
  {
  }

  lemma BitBounds(b: bool)
    ensures 0 <= Bit(b) <= 1
  {
  }

  method Add128(a64: u64, a0: u64, b64: u64, b0: u64) returns (z: U128)
    ensures z.V() == Wrap128(Value128(a64, a0) + Value128(b64, b0))
  {
    hide *;
    Carry(a0, b0);
    var v0: u64 := Wrap64(a0 as int + b0 as int);
    Carry(a64, b64);
    var sum: u64 := Wrap64(a64 as int + b64 as int);
    BitBounds(v0 < a0);
    var c0: int := Bit(v0 < a0);
    Carry(sum, c0);
    var v64: u64 := Wrap64(sum as int + c0);
    z := U128(v64, v0);
    ghost var k: int := Bit(sum < a64) as int + Bit(v64 < sum) as int;
    LimbsSum(a64, a0, b64, b0, v64, v0, c0, k);
    LimbsUnique(z, Value128(a64, a0) + Value128(b64, b0), k);
  }

  method Sub128(a64: u64, a0: u64, b64: u64, b0: u64) returns (z: U128)
    ensures z.V() == Wrap128(Value128(a64, a0) - Value128(b64, b0))
  {
    hide *;
    Borrow(a0, b0);
    var v0: u64 := Wrap64(a0 as int - b0 as int);
    Borrow(a64, b64);
    var difference: u64 := Wrap64(a64 as int - b64 as int);
    BitBounds(a0 < b0);
    var c0: u64 := Bit(a0 < b0);
    Borrow(difference, c0);
    var v64: u64 := Wrap64(difference as int - c0 as int);
    z := U128(v64, v0);
    ghost var k: int := Bit(a64 < b64) as int + Bit(difference < c0) as int;
    LimbsSum(v64, v0, b64, b0, a64, a0, c0, k);
    LimbsUnique(z, Value128(a64, a0) - Value128(b64, b0), -k);
  }

  lemma SchoolProduct(a32: nat, a0: nat, b32: nat, b0: nat)
    ensures (a32 * B32 + a0) * (b32 * B32 + b0)
         == a32 * b32 * B32 * B32 + (a32 * b0 + a0 * b32) * B32 + a0 * b0
  {
  }

  lemma WholeProduct(a: u64, b: u64, high: int, mid: int, low: int)
    requires a * b == high * B32 * B32 + mid * B32 + low
    ensures Partials(high, mid, low) == a * b < 0x1_0000_0000_0000_0000_0000_0000_0000_0000
  {
    ProductMono(a, 0xFFFF_FFFF_FFFF_FFFF, b);
    ProductMono(b, 0xFFFF_FFFF_FFFF_FFFF, 0xFFFF_FFFF_FFFF_FFFF);
  }

  lemma HalfProduct(x: nat, y: nat)
    requires x < B32 && y < B32
    ensures 0 <= x * y <= 0xFFFF_FFFE_0000_0001
  {
    ProductMono(x, 0xFFFF_FFFF, y);
    ProductMono(y, 0xFFFF_FFFF, 0xFFFF_FFFF);
  }

  method Mul64To128(a: u64, b: u64) returns (z: U128)
    ensures z.V() == a * b
  {
    var a32: nat, a0: nat := a / B32, a % B32;
    var b32: nat, b0: nat := b / B32, b % B32;
    HalfProduct(a0, b0);
    HalfProduct(a32, b0);
    HalfProduct(a0, b32);
    HalfProduct(a32, b32);
    SchoolProduct(a32, a0, b32, b0);
    WholeProduct(a, b, a32 * b32, a32 * b0 + a0 * b32, a0 * b0);
    z := AddPartials(a0 * b0, a32 * b0, a0 * b32, a32 * b32);
  }

  /** The carry chain over the four partial products. */
  method AddPartials(low: u64, mid1: u64, mid2: u64, high: u64) returns (z: U128)
    requires Partials(high, mid1 as int + mid2 as int, low) < 0x1_0000_0000_0000_0000_0000_0000_0000_0000
    ensures z.V() == Partials(high, mid1 as int + mid2 as int, low)
  {
    hide *;
    Exp2Constants();
    var mid: int := Wrap64(mid1 as int + mid2 as int);
    var carry := Bit(mid < mid1);
    CarryOut(mid1, mid2);
    var mh, ml := mid / 0x1_0000_0000, mid % 0x1_0000_0000;
    OrDisjoint(carry, mh, 32);
    SplitPartials(high, low, carry, mh, ml, mid, mid1 as int + mid2 as int);
    WrapSame(high as int + carry * 0x1_0000_0000 + mh);
    var v64: int := Wrap64(high as int + BitOr(carry * 0x1_0000_0000, mh));
    WrapShift(mid, ml);
    mid := Wrap64(mid * 0x1_0000_0000);
    CarryOut(mid, low);
    var v0: int := Wrap64(low as int + mid);
    WrapSame(v64 + Bit(v0 < mid));
    v64 := Wrap64(v64 + Bit(v0 < mid));
    z := U128(v64, v0);
    ValueIs(z);
  }

  function Partials(high: int, mid: int, low: int): int {
    high * 0x1_0000_0000_0000_0000 + mid * 0x1_0000_0000 + low
  }

  lemma CarryOut(x: u64, y: u64)
    ensures Wrap64(x as int + y as int)
         == x as int + y as int - Bit(Wrap64(x as int + y as int) < x) * 0x1_0000_0000_0000_0000
    ensures Wrap64(y as int + x as int) == Wrap64(x as int + y as int)
    ensures Bit(Wrap64(x as int + y as int) < x) <= 1
  {
  }

  lemma WrapSame(x: int)
    ensures 0 <= x < 0x1_0000_0000_0000_0000 ==> Wrap64(x) == x
  {
  }

  lemma WrapShift(x: u64, low: int)
    requires low == x % 0x1_0000_0000
    ensures Wrap64(x * 0x1_0000_0000) == low * 0x1_0000_0000
  {
  }

  lemma ValueIs(z: U128)
    ensures z.V() == z.v64 * 0x1_0000_0000_0000_0000 + z.v0
  {
  }

  lemma SplitPartials(high: u64, low: u64, carry: int, mh: int, ml: int, mid: int, sum: int)
    requires Partials(high, sum, low) < 0x1_0000_0000_0000_0000_0000_0000_0000_0000
    requires sum == mid + carry * 0x1_0000_0000_0000_0000 && 0 <= carry <= 1
    requires mid == mh * 0x1_0000_0000 + ml && 0 <= ml < 0x1_0000_0000 && 0 <= mh
    ensures var v0 := low + ml * 0x1_0000_0000;
            var top := high + carry * 0x1_0000_0000 + mh;
            && Partials(high, sum, low) == top * 0x1_0000_0000_0000_0000 + v0
            && 0 <= top < 0x1_0000_0000_0000_0000
            && (v0 >= 0x1_0000_0000_0000_0000 ==> top + 1 < 0x1_0000_0000_0000_0000)
  {
  }

  function Value256(v192: int, v128: int, v64: int, v0: int): int {
    ((v192 * 0x1_0000_0000_0000_0000 + v128) * 0x1_0000_0000_0000_0000 + v64) * 0x1_0000_0000_0000_0000 + v0
  }

  /** A word-by-word product is below its top half's last value. */
  lemma HighWord(z: U128, a: u64, b: u64)
    requires z.V() == a * b
    ensures z.v64 <= 0xFFFF_FFFF_FFFF_FFFE
  {
    ProductMono(a, 0xFFFF_FFFF_FFFF_FFFF, b);
    ProductMono(b, 0xFFFF_FFFF_FFFF_FFFF, 0xFFFF_FFFF_FFFF_FFFF);
  }

  method Mul128To256(a64: u64, a0: u64, b64: u64, b0: u64) returns (z: U256)
    ensures Value256(z.v192, z.v128, z.v64, z.v0) == Value128(a64, a0) * Value128(b64, b0)
  {
    hide *;
    var p0 := Mul64To128(a0, b0);
    var v0: int := p0.v0;
    var p64 := Mul64To128(a64, b0);
    HighWord(p64, a64, b0);
    CarryOut(p64.v0, p0.v64);
    var v64: int := Wrap64(p64.v0 as int + p0.v64 as int);
    var v128: int := p64.v64 as int + Bit(v64 < p64.v0);
    var p128 := Mul64To128(a64, b64);
    CarryOut(p128.v0, v128);
    ghost var mid1 := v64;
    var v128': int := Wrap64(v128 + p128.v0 as int);
    HighWord(p128, a64, b64);
    var v192: int := p128.v64 as int + Bit(v128' < p128.v0);
    var q64 := Mul64To128(a0, b64);
    HighWord(q64, a0, b64);
    CarryOut(q64.v0, v64);
    v64 := Wrap64(v64 + q64.v0 as int);
    var carry: int := q64.v64 as int + Bit(v64 < q64.v0);
    CarryOut(carry, v128');
    var v128'': int := Wrap64(v128' + carry);
    CarriesJoin(a64, a0, b64, b0, p0, p64, p128, q64, mid1, v64, v128', v128'',
                Bit(mid1 < p64.v0), Bit(v128' < p128.v0), Bit(v64 < q64.v0), Bit(v128'' < carry));
    v192 := v192 + Bit(v128'' < carry);
    z := U256(v192, v128'', v64, v0);
  }

  lemma FourLimbs(a64: u64, a0: u64, b64: u64, b0: u64, p0: U128, p64: U128, p128: U128, q64: U128)
    requires p0.V() == a0 * b0 && p64.V() == a64 * b0 && p128.V() == a64 * b64 && q64.V() == a0 * b64
    ensures Value128(a64, a0) * Value128(b64, b0)
         == Value256(p128.v64, p128.v0 as int + p64.v64 as int + q64.v64 as int,
                     p64.v0 as int + q64.v0 as int + p0.v64 as int, p0.v0)
  {
    Cross(a64, a0, b64, b0, p128.V(), p64.V(), q64.V(), p0.V());
    hide U128.V;
    ValueIs(p0);
    ValueIs(p64);
    ValueIs(p128);
    ValueIs(q64);
  }

  lemma Cross(x: int, y: int, z: int, t: int, xz: int, xt: int, yz: int, yt: int)
    requires xz == x * z && xt == x * t && yz == y * z && yt == y * t
    ensures Value128(x, y) * Value128(z, t)
         == (xz * 0x1_0000_0000_0000_0000 + xt + yz) * 0x1_0000_0000_0000_0000 + yt
  {
    CrossBy(x, y, z, t, 0x1_0000_0000_0000_0000);
  }

  lemma CrossBy(x: int, y: int, z: int, t: int, w: int)
    ensures (x * w + y) * (z * w + t) == (x * z * w + x * t + y * z) * w + y * t
  {
  }

  /** The limb sums with their carries, limb by limb. */
  lemma CarryChain(p0: U128, p64: U128, p128: U128, q64: U128, v64a: int, v64b: int, v128b: int, v128c: int,
                   c1: int, c2: int, c3: int, c4: int)
    requires v64a == p64.v0 as int + p0.v64 as int - c1 * 0x1_0000_0000_0000_0000
    requires v128b == p64.v64 as int + c1 + p128.v0 as int - c2 * 0x1_0000_0000_0000_0000
    requires v64b == v64a + q64.v0 as int - c3 * 0x1_0000_0000_0000_0000
    requires v128c == v128b + q64.v64 as int + c3 - c4 * 0x1_0000_0000_0000_0000
    ensures Value256(p128.v64 as int + c2 + c4, v128c, v64b, p0.v0)
         == Value256(p128.v64, p128.v0 as int + p64.v64 as int + q64.v64 as int,
                     p64.v0 as int + q64.v0 as int + p0.v64 as int, p0.v0)
  {
  }

  lemma CarriesJoin(a64: u64, a0: u64, b64: u64, b0: u64, p0: U128, p64: U128, p128: U128, q64: U128,
                    v64a: int, v64b: u64, v128b: int, v128c: u64, c1: int, c2: int, c3: int, c4: int)
    requires p0.V() == a0 * b0 && p64.V() == a64 * b0 && p128.V() == a64 * b64 && q64.V() == a0 * b64
    requires v64a == p64.v0 as int + p0.v64 as int - c1 * 0x1_0000_0000_0000_0000
    requires v128b == p64.v64 as int + c1 + p128.v0 as int - c2 * 0x1_0000_0000_0000_0000
    requires v64b as int == v64a + q64.v0 as int - c3 * 0x1_0000_0000_0000_0000
    requires v128c as int == v128b + q64.v64 as int + c3 - c4 * 0x1_0000_0000_0000_0000
    ensures Value256(p128.v64 as int + c2 + c4, v128c, v64b, p0.v0) == Value128(a64, a0) * Value128(b64, b0)
    ensures 0 <= p128.v64 as int + c2 + c4 < 0x1_0000_0000_0000_0000
  {
    hide *;
    FourLimbs(a64, a0, b64, b0, p0, p64, p128, q64);
    CarryChain(p0, p64, p128, q64, v64a, v64b, v128b, v128c, c1, c2, c3, c4);
    ProductOf128(a64, a0, b64, b0);
    TopLimb(Value128(a64, a0) * Value128(b64, b0), p128.v64 as int + c2 + c4, v128c, v64b, p0.v0);
  }

  lemma ProductOf128(a64: u64, a0: u64, b64: u64, b0: u64)
    ensures 0 <= Value128(a64, a0) * Value128(b64, b0)
         < Value256(0x1_0000_0000_0000_0000, 0, 0, 0)
  {
    var x, y := Value128(a64, a0), Value128(b64, b0);
    var top := 0xFFFF_FFFF_FFFF_FFFF_FFFF_FFFF_FFFF_FFFF;
    assert 0 <= x <= top && 0 <= y <= top;
    ProductMono(x, top, y);
    ProductMono(y, top, top);
    ProductNonnegative(x, y);
  }

  /** The top limb of a value below 2^256 is a word. */
  lemma TopLimb(x: int, v192: int, v128: u64, v64: u64, v0: u64)
    ensures x == Value256(v192, v128, v64, v0) && 0 <= x < Value256(0x1_0000_0000_0000_0000, 0, 0, 0) ==>
              0 <= v192 < 0x1_0000_0000_0000_0000
  {
  }
}
