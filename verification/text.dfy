/** String and number helpers that the Rust standard library and the C library
    provide to the source: substring search (`str::find`, `strstr`),
    `starts_with`/`ends_with`/`contains`, character replacement, decimal
    printing (`to_string`, `%d`) and zero padding (`%02d`, `%07llu`). */
module Text {
  import opened Wrappers

  /** An integer that fits in a byte. */
  type Byte = b: int | 0 <= b < 256

  const U64_LIMIT: int := 0x1_0000_0000_0000_0000
  const I64_MAX: int := 0x7FFF_FFFF_FFFF_FFFF
  const I64_MIN: int := -0x8000_0000_0000_0000

  predicate IsU64(n: int) { 0 <= n < U64_LIMIT }
  predicate IsI64(n: int) { I64_MIN <= n <= I64_MAX }

  /** Rust's `v as u64` for an `i64` value: two's-complement reinterpretation. */
  function I64AsU64(v: int): (r: nat)
    requires IsI64(v)
    ensures IsU64(r)
    ensures v >= 0 ==> r == v
    ensures v < 0 ==> r == v + U64_LIMIT
  {
    if v >= 0 then v else v + U64_LIMIT
  }

  // ---------------------------------------------------------------------------
  // Substring search

  predicate OccursAt(s: string, pat: string, i: nat) {
    i + |pat| <= |s| && s[i..i + |pat|] == pat
  }

  /** The first position at or after `from` where `pat` occurs in `s`. */
  function IndexOfFrom(s: string, pat: string, from: nat): (r: Option<nat>)
    decreases |s| - from
    ensures r.Some? ==> from <= r.value && OccursAt(s, pat, r.value)
    ensures r.Some? ==> forall j :: from <= j < r.value ==> !OccursAt(s, pat, j)
    ensures r.None? ==> forall j :: from <= j ==> !OccursAt(s, pat, j)
  {
    if from + |pat| > |s| then None
    else if s[from..from + |pat|] == pat then Some(from)
    else IndexOfFrom(s, pat, from + 1)
  }

  /** `str::find` / `strstr`: the position of the first occurrence of `pat`. */
  function IndexOf(s: string, pat: string): (r: Option<nat>)
    ensures r.Some? <==> exists j :: OccursAt(s, pat, j)
    ensures r.Some? ==> OccursAt(s, pat, r.value) && forall j :: 0 <= j < r.value ==> !OccursAt(s, pat, j)
  {
    IndexOfFrom(s, pat, 0)
  }

  /** An occurrence at or after `start` is an occurrence in the suffix
      from `start`. */
  lemma OccursAtShift(s: string, pat: string, start: nat, k: nat)
    requires start <= k && start <= |s|
    ensures OccursAt(s, pat, k) <==> OccursAt(s[start..], pat, k - start)
  {
    if k + |pat| <= |s| {
      assert s[start..][k - start..k - start + |pat|] == s[k..k + |pat|];
    }
  }

  predicate StartsWith<T(==)>(s: seq<T>, prefix: seq<T>) {
    |prefix| <= |s| && s[..|prefix|] == prefix
  }

  predicate EndsWith<T(==)>(s: seq<T>, suffix: seq<T>) {
    |suffix| <= |s| && s[|s| - |suffix|..] == suffix
  }

  predicate Contains(s: string, pat: string) {
    exists j :: 0 <= j <= |s| && OccursAt(s, pat, j)
  }

  /** `s.replace(c, rep)` for single characters `c` and `rep`. */
  function ReplaceChar(s: string, c: char, rep: char): (r: string)
    ensures |r| == |s|
    ensures forall k :: 0 <= k < |s| ==> r[k] == (if s[k] == c then rep else s[k])
  {
    if s == [] then [] else [if s[0] == c then rep else s[0]] + ReplaceChar(s[1..], c, rep)
  }

  /** `s.replace(c, rep)` for a single character `c` and a replacement
      string `rep`: every `c`, left to right, becomes `rep`. */
  function ReplaceAll(s: string, c: char, rep: string): (r: string)
    ensures c !in s ==> r == s
  {
    if s == [] then [] else (if s[0] == c then rep else [s[0]]) + ReplaceAll(s[1..], c, rep)
  }

  lemma {:induction false} ReplaceAllAppend(a: string, b: string, c: char, rep: string)
    ensures ReplaceAll(a + b, c, rep) == ReplaceAll(a, c, rep) + ReplaceAll(b, c, rep)
  {
    if a != [] {
      assert (a + b)[1..] == a[1..] + b;
      ReplaceAllAppend(a[1..], b, c, rep);
    } else {
      assert a + b == b;
    }
  }

  // ---------------------------------------------------------------------------
  // Joining

  /** `v.join(sep)`. */
  function Join(xs: seq<string>, sep: string): string {
    if |xs| == 0 then ""
    else if |xs| == 1 then xs[0]
    else Join(xs[..|xs| - 1], sep) + sep + xs[|xs| - 1]
  }

  /** The text a loop writes for item `k`: the item, then `sep` unless it is
      the last one. */
  function Item(xs: seq<string>, k: nat, sep: string): string
    requires k < |xs|
  {
    xs[k] + (if k == |xs| - 1 then "" else sep)
  }

  /** Appending three pieces one after the other appends their concatenation. */
  lemma AppendThree(a: string, b: string, c: string, d: string)
    ensures a + b + c + d == a + (b + (c + d))
  {
  }

  /** What such a loop has written after `i` items. */
  function ItemsUpTo(xs: seq<string>, i: nat, sep: string): string
    requires i <= |xs|
  {
    if i == 0 then "" else ItemsUpTo(xs, i - 1, sep) + Item(xs, i - 1, sep)
  }

  /** Writing every item with its separator is joining them. */
  lemma {:induction false} ItemsUpToJoin(xs: seq<string>, i: nat, sep: string)
    requires 0 < i <= |xs|
    ensures ItemsUpTo(xs, i, sep) == Join(xs[..i], sep) + (if i == |xs| then "" else sep)
  {
    if i == 1 {
      assert ItemsUpTo(xs, 0, sep) == "";
    } else {
      ItemsUpToJoin(xs, i - 1, sep);
      assert xs[..i][..i - 1] == xs[..i - 1];
    }
    assert xs[..|xs|] == xs;
  }

  // ---------------------------------------------------------------------------
  // Decimal numbers

  predicate IsDigit(c: char) { '0' <= c <= '9' }

  function DigitChar(d: nat): (c: char)
    requires d < 10
    ensures IsDigit(c) && c as int - '0' as int == d
  {
    ('0' as int + d) as char
  }

  function DigitValue(c: char): (d: nat)
    requires IsDigit(c)
    ensures d < 10 && DigitChar(d) == c
  {
    c as int - '0' as int
  }

  /** The value of a string of decimal digits. */
  function DecimalValue(s: string): nat
    requires forall k :: 0 <= k < |s| ==> IsDigit(s[k])
  {
    if s == [] then 0 else DecimalValue(s[..|s| - 1]) * 10 + DigitValue(s[|s| - 1])
  }

  /** `n.to_string()` / `%llu`: decimal digits without leading zeros. */
  function Decimal(n: nat): (r: string)
    ensures |r| >= 1
    ensures forall k :: 0 <= k < |r| ==> IsDigit(r[k])
    ensures r[0] == '0' ==> n == 0 && r == "0"
  {
    if n < 10 then [DigitChar(n)] else Decimal(n / 10) + [DigitChar(n % 10)]
  }

  lemma {:induction false} DecimalRoundTrip(n: nat)
    ensures DecimalValue(Decimal(n)) == n
  {
    var r := Decimal(n);
    if n >= 10 {
      DecimalRoundTrip(n / 10);
      assert r[..|r| - 1] == Decimal(n / 10);
    }
  }

  /** `%0<width>d`: `n` printed in exactly `width` digits, with leading zeros. */
  function ZeroPad(n: nat, width: nat): (r: string)
    ensures |r| == width
    ensures forall k :: 0 <= k < |r| ==> IsDigit(r[k])
  {
    if width == 0 then [] else ZeroPad(n / 10, width - 1) + [DigitChar(n % 10)]
  }

  /** `%0<width>d` for a value that may need more digits than `width`:
      zero-padded to at least `width` digits. */
  function ZeroPadMin(n: nat, width: nat): (r: string)
    ensures forall k :: 0 <= k < |r| ==> IsDigit(r[k])
    ensures n < Pow10(width) ==> r == ZeroPad(n, width)
  {
    if n < Pow10(width) then ZeroPad(n, width) else Decimal(n)
  }

  function Pow10(k: nat): (p: nat)
    ensures p >= 1
  {
    if k == 0 then 1 else 10 * Pow10(k - 1)
  }

  lemma {:induction false} ZeroPadValue(n: nat, width: nat)
    requires n < Pow10(width)
    ensures DecimalValue(ZeroPad(n, width)) == n
  {
    if width > 0 {
      DivBelow(n, Pow10(width - 1));
      ZeroPadValue(n / 10, width - 1);
      DecimalValueSnoc(ZeroPad(n / 10, width - 1), DigitChar(n % 10));
    }
  }

  lemma DecimalValueSnoc(s: string, c: char)
    requires forall k :: 0 <= k < |s| ==> IsDigit(s[k])
    requires IsDigit(c)
    ensures DecimalValue(s + [c]) == DecimalValue(s) * 10 + DigitValue(c)
  {
    assert (s + [c])[..|s|] == s;
  }

  lemma DivBelow(n: nat, p: nat)
    requires n < 10 * p
    ensures n / 10 < p
  {
  }

  /** `n` with its last `k` decimal digits dropped. */
  function DropDigits(n: nat, k: nat): nat {
    if k == 0 then n else DropDigits(n / 10, k - 1)
  }

  /** The first `k` digits of a `width`-digit padding are the padding of the
      number with its last `width - k` digits dropped. */
  lemma {:induction false} ZeroPadPrefix(n: nat, width: nat, k: nat)
    requires k <= width
    ensures ZeroPad(n, width)[..k] == ZeroPad(DropDigits(n, width - k), k)
  {
    if k < width {
      ZeroPadPrefix(n / 10, width - 1, k);
      assert ZeroPad(n, width)[..k] == ZeroPad(n / 10, width - 1)[..k];
    }
  }

  lemma DivUnique(n: int, d: int, q: int, r: int)
    requires d > 0 && 0 <= r < d && n == q * d + r
    ensures n / d == q && n % d == r
  {
    var q', r' := n / d, n % d;
    assert n == q' * d + r';
    assert (q - q') * d == r' - r;
    if q > q' {
      MulAtLeast(q - q', d);
    } else if q < q' {
      MulAtLeast(q' - q, d);
    }
  }

  lemma MulAtLeast(x: int, d: int)
    requires x >= 1 && d > 0
    ensures x * d >= d
  {
    assert x * d == (x - 1) * d + d;
  }

  lemma DivDiv(n: nat, a: nat, b: nat)
    requires a > 0 && b > 0
    ensures n / a / b == n / (a * b)
  {
    var q, r1 := n / a, n % a;
    var q2, r2 := q / b, q % b;
    var rest := r2 * a + r1;
    Regroup(q2, b, r2, a, r1);
    RestBelow(r2, a, r1, b);
    DivUnique(n, a * b, q2, rest);
  }

  lemma Regroup(q2: int, b: int, r2: int, a: int, r1: int)
    ensures (q2 * b + r2) * a + r1 == q2 * (a * b) + (r2 * a + r1)
  {
  }

  lemma RestBelow(r2: nat, a: nat, r1: nat, b: nat)
    requires r2 < b && r1 < a
    ensures r2 * a + r1 < a * b
  {
    MulLe(r2, b - 1, a);
    assert (b - 1) * a == a * b - a;
  }

  lemma MulLe(x: nat, y: nat, a: nat)
    requires x <= y
    ensures x * a <= y * a
  {
    assert y * a == x * a + (y - x) * a;
  }

  /** Taking a remainder by a multiple of `b` first does not change the
      remainder by `b`. */
  lemma ModOfMod(t: int, a: int, b: int)
    requires a > 0 && b > 0 && a % b == 0
    ensures t % a % b == t % b
  {
    var r := t % a;
    assert t == (t / a) * a + r;
    assert a == (a / b) * b;
    assert r == (r / b) * b + r % b;
    assert (t / a) * a == (t / a) * (a / b) * b;
    assert t == ((t / a) * (a / b) + r / b) * b + r % b;
    DivUnique(t, b, (t / a) * (a / b) + r / b, r % b);
  }
}
