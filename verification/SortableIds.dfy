/**
  The sortable identifiers of the AppSync worker script (`ministack/core/appsync_js.py`): numbers
  written in a fixed width over an alphabet whose characters ascend.
 */
module SortableIds {
  import opened Arithmetic
  import opened Results

  const DIGITS := "0123456789"
  const UPPER := "ABCDEFGHIJKLMNOPQRSTUVWXYZ"
  const LOWER := "abcdefghijklmnopqrstuvwxyz"

  const CROCKFORD := DIGITS + "ABCDEFGHJKMNPQRSTVWXYZ"
  const BASE62 := DIGITS + UPPER + LOWER

  predicate Ascending(alphabet: string) {
    2 <= |alphabet| && forall i, j :: 0 <= i < j < |alphabet| ==> alphabet[i] < alphabet[j]
  }

  function Pow(base: nat, e: nat): (r: nat)
    ensures base > 0 ==> r > 0
  {
    if e == 0 then 1 else base * Pow(base, e - 1)
  }

  /** The last `width` digits of a number, most significant first. */
  function Numeral(alphabet: string, width: nat, n: nat): (s: string)
    requires alphabet != ""
    ensures |s| == width && forall c <- s :: c in alphabet
  {
    if width == 0 then ""
    else Numeral(alphabet, width - 1, n / |alphabet|) + [alphabet[n % |alphabet|]]
  }

  /** The order of JavaScript's `<` on texts of one length: the first difference decides. */
  predicate Before(s: string, t: string)
    requires |s| == |t|
  {
    s != "" && (s[0] < t[0] || (s[0] == t[0] && Before(s[1..], t[1..])))
  }

  // ---------------------------------------------------------------- order and value

  lemma {:induction false} BeforePrefix(s: string, t: string, u: string, v: string)
    requires |s| == |t| && |u| == |v|
    ensures Before(s, t) ==> Before(s + u, t + v)
    ensures s == t ==> Before(s + u, t + v) == Before(u, v)
  {
    if s == "" {
      assert s + u == u && t + v == v;
    } else {
      assert (s + u)[1..] == s[1..] + u && (t + v)[1..] == t[1..] + v;
      BeforePrefix(s[1..], t[1..], u, v);
    }
  }

  lemma {:induction false} BeforeIrreflexive(s: string)
    ensures !Before(s, s)
  {
    if s != "" {
      BeforeIrreflexive(s[1..]);
    }
  }

  lemma {:induction false} BeforeAsymmetric(s: string, t: string)
    requires |s| == |t| && Before(s, t)
    ensures !Before(t, s)
  {
    if s[0] == t[0] {
      BeforeAsymmetric(s[1..], t[1..]);
    }
  }

  lemma DivisionUnique(n: nat, d: nat, q: nat, r: nat)
    requires r < d && n == d * q + r
    ensures n / d == q && n % d == r
  {
    if n / d < q {
      MulMonotone(d, n / d + 1, q);
    } else if n / d > q {
      MulMonotone(d, q + 1, n / d);
    }
  }

  lemma DivisionOrder(m: nat, n: nat, base: nat)
    requires base > 0 && m < n
    ensures m / base < n / base || (m / base == n / base && m % base < n % base)
  {
    if m / base > n / base {
      MulMonotone(base, n / base + 1, m / base);
    }
  }

  lemma DivisionBound(n: nat, base: nat, bound: nat)
    requires base > 0 && n < base * bound
    ensures n / base < bound
  {
    if n / base >= bound {
      MulMonotone(base, bound, n / base);
    }
  }

  lemma SmallRemainder(a: nat, b: nat, y: nat, r: nat)
    requires r < a && y < b
    ensures a * y + r < a * b
  {
    MulMonotone(a, y, b - 1);
    assert a * (b - 1) == a * b - a;
  }

  lemma Quotient(n: nat, a: nat, b: nat, x: nat, y: nat, r: nat)
    requires r < a && y < b && n == a * (b * x + y) + r
    ensures a * b > 0 && n / (a * b) == x
  {
    SmallRemainder(a, b, y, r);
    DivisionUnique(n, a * b, x, a * y + r);
  }

  lemma Euclid(n: nat, a: nat)
    requires a > 0
    ensures n == a * (n / a) + n % a && n % a < a
  {
  }

  lemma DivisionTwice(n: nat, a: nat, b: nat)
    requires a > 0 && b > 0
    ensures a * b > 0 && n / a / b == n / (a * b)
  {
    Euclid(n, a);
    Euclid(n / a, b);
    Quotient(n, a, b, n / a / b, n / a % b, n % a);
  }

  /** Fixed-width numerals sort as their numbers do. */
  lemma {:induction false} NumeralOrder(alphabet: string, width: nat, m: nat, n: nat)
    requires Ascending(alphabet) && m < n < Pow(|alphabet|, width)
    ensures Before(Numeral(alphabet, width, m), Numeral(alphabet, width, n))
  {
    var base := |alphabet|;
    if width > 0 {
      assert Pow(base, width) == base * Pow(base, width - 1);
      hide Numeral, Pow;
      DivisionOrder(m, n, base);
      DivisionBound(n, base, Pow(base, width - 1));
      if m / base < n / base {
        NumeralOrder(alphabet, width - 1, m / base, n / base);
      }
      LaterNumeral(alphabet, width, m, n);
    }
  }

  lemma LastDigit(alphabet: string, width: nat, n: nat)
    requires alphabet != "" && width > 0
    ensures Numeral(alphabet, width, n) == Numeral(alphabet, width - 1, n / |alphabet|) + [alphabet[n % |alphabet|]]
  {
  }

  lemma DigitDecides(front: string, front': string, c: char, d: char)
    requires |front| == |front'| && (Before(front, front') || (front == front' && c < d))
    ensures Before(front + [c], front' + [d])
  {
    BeforePrefix(front, front', [c], [d]);
  }

  lemma LaterNumeral(alphabet: string, width: nat, m: nat, n: nat)
    requires Ascending(alphabet) && width > 0
    requires var base := |alphabet|;
      || Before(Numeral(alphabet, width - 1, m / base), Numeral(alphabet, width - 1, n / base))
      || (m / base == n / base && m % base < n % base)
    ensures Before(Numeral(alphabet, width, m), Numeral(alphabet, width, n))
  {
    hide Numeral, Before;
    var base := |alphabet|;
    LastDigit(alphabet, width, m);
    LastDigit(alphabet, width, n);
    DigitDecides(Numeral(alphabet, width - 1, m / base), Numeral(alphabet, width - 1, n / base), alphabet[m % base], alphabet[n % base]);
  }

  /** Exactly the smaller number's numeral comes first, so distinct numbers have distinct numerals. */
  lemma NumeralOrderIff(alphabet: string, width: nat, m: nat, n: nat)
    requires Ascending(alphabet) && m < Pow(|alphabet|, width) && n < Pow(|alphabet|, width)
    ensures Before(Numeral(alphabet, width, m), Numeral(alphabet, width, n)) <==> m < n
    ensures Numeral(alphabet, width, m) == Numeral(alphabet, width, n) <==> m == n
  {
    hide Numeral;
    if m < n {
      NumeralOrder(alphabet, width, m, n);
    } else if n < m {
      NumeralOrder(alphabet, width, n, m);
      BeforeAsymmetric(Numeral(alphabet, width, n), Numeral(alphabet, width, m));
    }
    BeforeIrreflexive(Numeral(alphabet, width, m));
  }

  lemma ZeroDigit(base: nat)
    requires base > 0
    ensures 0 % base == 0
  {
  }

  /** More places than a number needs only add leading zeros. */
  lemma NumeralPads(alphabet: string, width: nat, n: nat)
    requires alphabet != "" && n < Pow(|alphabet|, width)
    ensures Numeral(alphabet, width + 1, n) == [alphabet[0]] + Numeral(alphabet, width, n)
  {
    FrontDigit(alphabet, width, n);
    QuotientZero(n, Pow(|alphabet|, width));
    ZeroDigit(|alphabet|);
    hide Numeral, Pow;
  }

  /** The digit at the front of a numeral one place wider. */
  lemma {:induction false} FrontDigit(alphabet: string, k: nat, n: nat)
    requires alphabet != ""
    ensures Numeral(alphabet, k + 1, n) == [alphabet[n / Pow(|alphabet|, k) % |alphabet|]] + Numeral(alphabet, k, n)
  {
    var base := |alphabet|;
    if k == 0 {
      assert Numeral(alphabet, 0, n / base) == "";
    } else {
      FrontDigit(alphabet, k - 1, n / base);
      DivisionTwice(n, base, Pow(base, k - 1));
      var last := [alphabet[n % base]];
      var digit := [alphabet[n / Pow(base, k) % base]];
      assert Numeral(alphabet, k + 1, n) == Numeral(alphabet, k, n / base) + last;
      assert Numeral(alphabet, k, n) == Numeral(alphabet, k - 1, n / base) + last;
      assert (digit + Numeral(alphabet, k - 1, n / base)) + last == digit + (Numeral(alphabet, k - 1, n / base) + last);
    }
  }

  lemma WrapDigits(n: nat, base: nat, p: nat)
    requires base > 0 && p > 0
    ensures base * p > 0 && n % (base * p) / base == n / base % p && n % (base * p) % base == n % base
  {
    var q, x, y := n / base / p, n / base % p, n % base;
    Euclid(n, base);
    Euclid(n / base, p);
    assert n == base * (p * q + x) + y;
    SmallRemainder(base, p, x, y);
    DivisionUnique(n, base * p, q, base * x + y);
    DivisionUnique(base * x + y, base, x, y);
  }

  /** A fixed width keeps a number only up to multiples of its capacity. */
  lemma {:induction false} NumeralWraps(alphabet: string, width: nat, n: nat)
    requires alphabet != ""
    ensures Numeral(alphabet, width, n) == Numeral(alphabet, width, n % Pow(|alphabet|, width))
  {
    if width > 0 {
      var base, p := |alphabet|, Pow(|alphabet|, width - 1);
      assert Pow(base, width) == base * p;
      hide Numeral, Pow;
      WrapDigits(n, base, p);
      NumeralWraps(alphabet, width - 1, n / base);
      LastDigit(alphabet, width, n);
      LastDigit(alphabet, width, n % (base * p));
    }
  }

  // ---------------------------------------------------------------- ULIDs

  /** The time part: ten characters built from the right, keeping the low fifty bits. */
  method TimePart(now: nat) returns (time: string)
    ensures time == Numeral(CROCKFORD, 10, now)
  {
    var t := now;
    time := "";
    var i := 9;
    while i >= 0
      invariant -1 <= i <= 9 && |time| == 9 - i
      invariant Numeral(CROCKFORD, i + 1, t) + time == Numeral(CROCKFORD, 10, now)
    {
      assert Numeral(CROCKFORD, i + 1, t) == Numeral(CROCKFORD, i, t / 32) + [CROCKFORD[t % 32]];
      time := [CROCKFORD[t % 32]] + time;
      t := t / 32;
      i := i - 1;
    }
    assert "" + time == time;
  }

  function RandomPart(bytes: seq<nat>): (r: string)
    ensures |r| == |bytes|
  {
    seq(|bytes|, i requires 0 <= i < |bytes| => CROCKFORD[bytes[i] % 32])
  }

  function UlidOf(now: nat, bytes: seq<nat>): string {
    Numeral(CROCKFORD, 10, now) + RandomPart(bytes)
  }

  /** `autoUlid` at a given clock reading and with given random bytes. */
  method AutoUlid(now: nat, bytes: seq<nat>) returns (id: string)
    requires |bytes| == 16
    ensures id == UlidOf(now, bytes)
  {
    var time := TimePart(now);
    var rand := "";
    for i := 0 to 16
      invariant rand == RandomPart(bytes)[..i]
    {
      rand := rand + [CROCKFORD[bytes[i] % 32]];
    }
    assert RandomPart(bytes)[..16] == RandomPart(bytes);
    return time + rand;
  }

  /** Two ascending runs make one when the second starts above the end of the first. */
  lemma AscendingJoin(a: string, b: string)
    requires Ascending(a) && Ascending(b) && a[|a| - 1] < b[0]
    ensures Ascending(a + b)
  {
    var s := a + b;
    forall i, j | 0 <= i < j < |s| ensures s[i] < s[j] {
      if i < |a| <= j {
        assert a[i] <= a[|a| - 1] && b[0] <= b[j - |a|];
      }
    }
  }

  lemma UlidTimes()
    ensures Pow(32, 10) == FIFTY_BITS
  {
    assert Pow(32, 5) == 0x200_0000;
    assert Pow(32, 6) == 0x4000_0000;
    assert Pow(32, 7) == 0x8_0000_0000;
  }

  const FIFTY_BITS: nat := 0x4_0000_0000_0000

  /** Time parts order and identify clock readings up to fifty bits, and no further. */
  lemma TimePartsIff(now: nat, now': nat)
    ensures var time, time' := Numeral(CROCKFORD, 10, now), Numeral(CROCKFORD, 10, now');
      && (Before(time, time') <==> now % FIFTY_BITS < now' % FIFTY_BITS)
      && (time == time' <==> now % FIFTY_BITS == now' % FIFTY_BITS)
  {
    hide Numeral, Pow;
    UlidTimes();
    NumeralWraps(CROCKFORD, 10, now);
    NumeralWraps(CROCKFORD, 10, now');
    NumeralOrderIff(CROCKFORD, 10, now % FIFTY_BITS, now' % FIFTY_BITS);
  }

  /** Ids made at different times below that bound sort by time, whatever their random parts. */
  lemma UlidsSortByTime(now: nat, bytes: seq<nat>, now': nat, bytes': seq<nat>)
    requires |bytes| == |bytes'| == 16 && now < now' < FIFTY_BITS
    ensures |UlidOf(now, bytes)| == |UlidOf(now', bytes')| == 26
    ensures Before(UlidOf(now, bytes), UlidOf(now', bytes'))
  {
    hide Numeral, Pow;
    TimePartsIff(now, now');
    BeforePrefix(Numeral(CROCKFORD, 10, now), Numeral(CROCKFORD, 10, now'), RandomPart(bytes), RandomPart(bytes'));
  }

  /** The sixteen characters behind the time spell the random bytes modulo 32, in their order. */
  lemma UlidCarriesBytes(now: nat, bytes: seq<nat>, i: nat)
    requires i < |bytes|
    ensures |UlidOf(now, bytes)| == 10 + |bytes|
    ensures UlidOf(now, bytes)[10 + i] == CROCKFORD[bytes[i] % 32]
  {
    hide Numeral;
  }

  lemma CrockfordText()
    ensures CROCKFORD == "0123456789ABCDEFGHJKMNPQRSTVWXYZ"
  {
  }

  lemma UlidLength(now: nat, bytes: seq<nat>)
    ensures |UlidOf(now, bytes)| == 10 + |bytes|
  {
    hide Numeral;
  }

  /** Two ids of one moment are the same exactly when their random bytes agree modulo 32. */
  lemma SameMomentIff(now: nat, bytes: seq<nat>, bytes': seq<nat>)
    requires |bytes| == |bytes'|
    ensures UlidOf(now, bytes) == UlidOf(now, bytes') <==> forall i :: 0 <= i < |bytes| ==> bytes[i] % 32 == bytes'[i] % 32
  {
    UlidLength(now, bytes);
    UlidLength(now, bytes');
    hide UlidOf, RandomPart;
    var id, id' := UlidOf(now, bytes), UlidOf(now, bytes');
    forall i | 0 <= i < |bytes| ensures id[10 + i] == id'[10 + i] <==> bytes[i] % 32 == bytes'[i] % 32 {
      UlidCarriesBytes(now, bytes, i);
      UlidCarriesBytes(now, bytes', i);
      AscendingDiffers(CROCKFORD, bytes[i] % 32, bytes'[i] % 32);
    }
    if forall i :: 0 <= i < |bytes| ==> bytes[i] % 32 == bytes'[i] % 32 {
      SameRandomPart(now, bytes, bytes');
    }
  }

  lemma AscendingDiffers(alphabet: string, a: nat, b: nat)
    requires Ascending(alphabet) && a < |alphabet| && b < |alphabet|
    ensures alphabet[a] == alphabet[b] <==> a == b
  {
  }

  lemma SameRandomPart(now: nat, bytes: seq<nat>, bytes': seq<nat>)
    requires |bytes| == |bytes'| && forall i :: 0 <= i < |bytes| ==> bytes[i] % 32 == bytes'[i] % 32
    ensures UlidOf(now, bytes) == UlidOf(now, bytes')
  {
    assert RandomPart(bytes) == RandomPart(bytes');
  }

  // ---------------------------------------------------------------- KSUIDs

  const EPOCH: nat := 1400000000
  const TWO32: nat := 0x1_0000_0000
  const TWO128: nat := 0x1_0000_0000_0000_0000_0000_0000_0000_0000

  /** The number whose hexadecimal text the worker reads: four time bytes, then sixteen random ones. */
  function Payload(seconds: nat, random: nat): nat {
    seconds * TWO128 + random
  }

  function Repeat(c: char, n: nat): (r: string)
    ensures |r| == n && forall i :: 0 <= i < n ==> r[i] == c
  {
    seq(n, _ => c)
  }

  /** `padStart` with one fill character. */
  method PadStart(s: string, width: nat, c: char) returns (r: string)
    ensures r == (if |s| < width then Repeat(c, width - |s|) else "") + s
  {
    var fill := "";
    while |fill| + |s| < width
      invariant fill == Repeat(c, |fill|) && (fill != "" ==> |fill| + |s| <= width)
    {
      fill := [c] + fill;
    }
    return fill + s;
  }

  /** The loop over `n % 62n`: a number's digits with no leading zero, none at all for zero. */
  method Digits(n: nat) returns (out: string)
    ensures n < Pow(62, |out|) && out == Numeral(BASE62, |out|, n)
    ensures out != "" ==> Pow(62, |out| - 1) <= n
  {
    hide Numeral;
    var rest := n;
    out := "";
    assert out == Numeral(BASE62, 0, n);
    while rest > 0
      invariant rest == n / Pow(62, |out|) && out == Numeral(BASE62, |out|, n)
      invariant out != "" ==> n / Pow(62, |out| - 1) > 0
    {
      FrontDigit(BASE62, |out|, n);
      DivisionTwice(n, Pow(62, |out|), 62);
      out := [BASE62[rest % 62]] + out;
      rest := rest / 62;
    }
    QuotientZero(n, Pow(62, |out|));
    if out != "" {
      QuotientZero(n, Pow(62, |out| - 1));
    }
  }

  /** Numbers of 160 bits fit into 27 places. */
  lemma KsuidFits()
    ensures TWO32 * TWO128 < Pow(62, 27)
  {
    assert Pow(62, 3) == 238328;
    PowAdd(62, 3, 6);
    PowAdd(62, 3, 3);
    assert Pow(62, 9) == 238328 * (238328 * 238328);
    PowAdd(62, 9, 9);
    PowAdd(62, 9, 18);
  }

  lemma MulAssociates(a: nat, b: nat, c: nat)
    ensures a * (b * c) == (a * b) * c
  {
  }

  lemma {:induction false} PowAdd(base: nat, a: nat, b: nat)
    ensures Pow(base, a + b) == Pow(base, a) * Pow(base, b)
  {
    if a > 0 {
      PowAdd(base, a - 1, b);
      MulAssociates(base, Pow(base, a - 1), Pow(base, b));
    }
  }

  /** Leading zeros up to a width. */
  lemma {:induction false} NumeralPadsTo(alphabet: string, k: nat, width: nat, n: nat)
    requires alphabet != "" && n < Pow(|alphabet|, k) && k <= width
    ensures Numeral(alphabet, width, n) == Repeat(alphabet[0], width - k) + Numeral(alphabet, k, n)
    decreases width - k
  {
    if k == width {
      assert Repeat(alphabet[0], 0) + Numeral(alphabet, k, n) == Numeral(alphabet, k, n);
    } else {
      NumeralPadsTo(alphabet, k + 1, width, n);
      NumeralPads(alphabet, k, n);
      assert Repeat(alphabet[0], width - k - 1) + ([alphabet[0]] + Numeral(alphabet, k, n))
          == Repeat(alphabet[0], width - k) + Numeral(alphabet, k, n);
    }
  }

  lemma {:induction false} PowMonotone(base: nat, a: nat, b: nat)
    requires base > 0 && a <= b
    ensures Pow(base, a) <= Pow(base, b)
  {
    if a < b {
      PowMonotone(base, a, b - 1);
    }
  }

  /**
    `autoKsuid` at a given clock reading, in milliseconds, and with a given 128-bit random number. The four
    time bytes only take what `writeUInt32BE` accepts.
   */
  method AutoKsuid(now: nat, random: nat) returns (id: Option<string>)
    requires random < TWO128
    ensures id.None? <==> now / 1000 < 1400000000 || now / 1000 - 1400000000 >= 0x1_0000_0000
    ensures id.Some? ==>
      id.value == Numeral(BASE62, 27, (now / 1000 - 1400000000) * 0x1_0000_0000_0000_0000_0000_0000_0000_0000 + random)
  {
    hide Numeral, Pow;
    if now / 1000 < EPOCH || now / 1000 - EPOCH >= TWO32 {
      return None;
    }
    var n := Payload(now / 1000 - EPOCH, random);
    PayloadFits(now / 1000 - EPOCH, random);
    var out := Digits(n);
    if |out| > 27 {
      PowMonotone(62, 27, |out| - 1);
    }
    NumeralPadsTo(BASE62, |out|, 27, n);
    var padded := PadStart(out, 27, '0');
    assert padded == Repeat(BASE62[0], 27 - |out|) + out;
    return Some(padded);
  }

  lemma PayloadFits(seconds: nat, random: nat)
    requires seconds < TWO32 && random < TWO128
    ensures Payload(seconds, random) < Pow(62, 27)
  {
    hide Pow;
    KsuidFits();
  }

  lemma Base62Ascends()
    ensures Ascending(BASE62) && |BASE62| == 62
  {
    UpperAscends();
    LowerAscends();
    assert Ascending(DIGITS);
    hide Ascending;
    AscendingJoin(DIGITS, UPPER);
    assert (DIGITS + UPPER)[35] == 'Z';
    AscendingJoin(DIGITS + UPPER, LOWER);
  }

  lemma UpperAscends()
    ensures Ascending(UPPER) && |UPPER| == 26
  {
  }

  lemma LowerAscends()
    ensures Ascending(LOWER) && |LOWER| == 26
  {
  }

  /** Ids sort by their second and then by their random number, and no two payloads share an id. */
  lemma KsuidsSort(seconds: nat, random: nat, seconds': nat, random': nat)
    requires seconds < TWO32 && seconds' < TWO32 && random < TWO128 && random' < TWO128
    ensures var id, id' := Numeral(BASE62, 27, Payload(seconds, random)), Numeral(BASE62, 27, Payload(seconds', random'));
      && (Before(id, id') <==> seconds < seconds' || (seconds == seconds' && random < random'))
      && (id == id' <==> seconds == seconds' && random == random')
  {
    hide Numeral, Pow;
    Base62Ascends();
    PayloadFits(seconds, random);
    PayloadFits(seconds', random');
    NumeralOrderIff(BASE62, 27, Payload(seconds, random), Payload(seconds', random'));
  }
}
