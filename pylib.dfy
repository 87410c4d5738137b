/** Python built-ins the game relies on, over unbounded integers: truncating
    division (`int(a / b)`), `round` of a quotient (half to even), slicing
    with clamped indices, the position `list.remove` deletes, and the two
    calls into `random`
    (`randint`, `choice`), whose randomness is an injected choice index. */
module PyLib {

  /** The one exception the modelled code can raise. */
  datatype Error = IndexError

  datatype Result<T> = Ok(value: T) | Err(error: Error)

  function Abs(x: int): (r: nat)
    ensures r == x || r == -x
  {
    if x < 0 then -x else x
  }

  function Min(a: int, b: int): int { if a <= b then a else b }

  /** `int(a / b)` for a positive divisor: the quotient truncated toward zero
      (Dafny's own `/` rounds toward negative infinity for a negative `a`). */
  function TruncDiv(a: int, b: int): (q: int)
    requires b > 0
    ensures a >= 0 ==> q >= 0 && b * q <= a < b * q + b
    ensures a < 0 ==> q <= 0 && b * q - b < a <= b * q
  {
    if a >= 0 then
      FloorDivBounds(a, b);
      a / b
    else
      FloorDivBounds(-a, b);
      NegateProduct(b, (-a) / b);
      -((-a) / b)
  }

  lemma FloorDivBounds(a: nat, b: int)
    requires b > 0
    ensures a / b >= 0 && b * (a / b) <= a < b * (a / b) + b
  {
  }

  lemma NegateProduct(b: int, p: int)
    ensures b * -p == -(b * p)
  {
  }

  lemma TruncDivOfMultiple(k: int, b: int)
    requires b > 0
    ensures TruncDiv(b * k, b) == k
  {
    var q := TruncDiv(b * k, b);
    if k >= 0 {
      MultipleBetween(b, k - q);
    } else {
      MultipleBetween(b, q - k);
    }
  }

  /** The only multiple of a positive `b` in `[0, b)` is zero. */
  lemma MultipleBetween(b: int, t: int)
    requires b > 0 && 0 <= b * t < b
    ensures t == 0
  {
  }

  /** `round(n / d)` for a positive divisor: the nearest integer, ties to the
      even neighbour (Python 3's rounding). */
  function RoundHalfEven(n: int, d: int): (r: int)
    requires d > 0
    ensures -d <= 2 * (n - r * d) <= d
    ensures 2 * (n - r * d) == d ==> r % 2 == 0
    ensures 2 * (n - r * d) == -d ==> r % 2 == 0
  {
    var q := n / d;
    var m := n % d;
    QuotientNeighbours(n, d);
    if 2 * m < d then q
    else if 2 * m > d then q + 1
    else if q % 2 == 0 then q
    else q + 1
  }

  /** The distances from `n` to the two multiples of `d` around it. */
  lemma QuotientNeighbours(n: int, d: int)
    requires d > 0
    ensures 0 <= n % d < d
    ensures n - (n / d) * d == n % d
    ensures n - (n / d + 1) * d == n % d - d
  {
  }

  /** `random.randint(lo, hi)`: the choice index `c` stands for the random
      source, so every result lies in the closed range. */
  function RandInt(lo: int, hi: int, c: nat): (r: int)
    requires lo <= hi
    ensures lo <= r <= hi
  {
    lo + c % (hi - lo + 1)
  }

  /** No value of the range is lost by modelling the random source as a
      choice index. */
  lemma RandIntOnto(lo: int, hi: int, v: int)
    requires lo <= v <= hi
    ensures RandInt(lo, hi, v - lo) == v
  {
  }

  /** `random.choice(s)`. */
  function Choice<T>(s: seq<T>, c: nat): (r: T)
    requires |s| > 0
    ensures r in s
  {
    s[c % |s|]
  }

  /** The index a Python slice bound denotes in a sequence of length `n`:
      negative bounds count from the end, and both are clamped to `[0, n]`. */
  function SliceIndex(i: int, n: nat): (k: nat)
    ensures k <= n
    ensures 0 <= i ==> k == Min(i, n)
    ensures i < 0 <= i + n ==> k == i + n
    ensures i + n < 0 ==> k == 0
  {
    if i < 0 then (if i + n < 0 then 0 else i + n)
    else if i > n then n
    else i
  }

  /** `s[lo:hi]`: never out of range, empty when the bounds cross. */
  function Slice<T>(s: seq<T>, lo: int, hi: int): seq<T>
  {
    var a := SliceIndex(lo, |s|);
    var b := SliceIndex(hi, |s|);
    if a < b then s[a..b] else []
  }

  lemma SliceOfNonNegative<T>(s: seq<T>, lo: nat, hi: nat)
    ensures |s| <= lo ==> Slice(s, lo, hi) == []
    ensures lo <= hi <= |s| ==> Slice(s, lo, hi) == s[lo..hi]
    ensures lo <= |s| <= hi ==> Slice(s, lo, hi) == s[lo..]
  {
  }

  /** The position `list.remove(x)` deletes: the first value-equal entry. */
  function FirstIndex<T(==)>(s: seq<T>, x: T): (j: nat)
    requires x in s
    ensures j < |s| && s[j] == x
    ensures forall m :: 0 <= m < j ==> s[m] != x
  {
    if s[0] == x then 0 else 1 + FirstIndex(s[1..], x)
  }

  /** Writing at the boundary between a settled prefix and the rest
      replaces the rest's first entry. */
  lemma ReplaceAt<T>(done: seq<T>, rest: seq<T>, x: T)
    requires rest != []
    ensures (done + rest)[|done| := x] == done + [x] + rest[1..]
  {
    assert (done + rest)[|done| := x] == done + [x] + rest[1..];
  }

  /** Dropping the entry just after a settled prefix leaves the entry behind
      it next in line. */
  lemma SkipFirst<T>(done: seq<T>, rest: seq<T>)
    requires |rest| > 1
    ensures done + rest[1..] == (done + [rest[1]]) + rest[2..]
  {
    assert done + rest[1..] == (done + [rest[1]]) + rest[2..];
  }

  /** `del s[i]` for the entry just after a settled prefix. */
  lemma RemoveAt<T>(done: seq<T>, x: T, rest: seq<T>)
    ensures var s := done + [x] + rest; s[..|done|] + s[|done| + 1..] == done + rest
  {
    var s := done + [x] + rest;
    assert s[..|done|] == done;
    assert s[|done| + 1..] == rest;
  }
}
