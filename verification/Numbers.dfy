/** What the conversions of string.asm mean: decimal and hexadecimal numerals,
    the values read back from them, and the round trips. */
module Numbers {
  import opened Bytes
  import opened Machine

  const MINUS := 45
  const ZERO := 48

  /** A 32-bit word read as a signed number. */
  function Signed(w: Word): int { if w < 0x8000_0000 then w else w - WORD_LIMIT }

  lemma SignedInverse(w: Word)
    ensures Wrap(Signed(w)) == w
  {
  }

  // ----------------------------------------------------------------- decimal

  function Digits(v: nat): (r: seq<Byte>)
    ensures |r| > 0
  {
    if v < 10 then [ZERO + v] else Digits(v / 10) + [ZERO + v % 10]
  }

  /** The decimal numeral of a signed number. */
  function Decimal(i: int): seq<Byte> {
    if i < 0 then [MINUS] + Digits(-i) else Digits(i)
  }

  predicate IsDigit(c: Byte) { ZERO <= c <= ZERO + 9 }

  /** How many digits a string starts with. */
  function DigitRun(s: seq<Byte>): (n: nat)
    ensures n <= |s| && (forall k :: 0 <= k < n ==> IsDigit(s[k])) && (n < |s| ==> !IsDigit(s[n]))
    decreases |s|
  {
    if s == [] || !IsDigit(s[0]) then 0 else
    assert forall k :: 1 <= k < |s| ==> s[k] == s[1..][k - 1];
    1 + DigitRun(s[1..])
  }

  /** The number some digits stand for. */
  function DigitsValue(s: seq<Byte>): int
    decreases |s|
  {
    if s == [] then 0 else DigitsValue(s[..|s| - 1]) * 10 + (s[|s| - 1] - ZERO)
  }

  /** A digit in front counts for its place. */
  lemma {:induction false} FirstDigitCounts(c: Byte, s: seq<Byte>)
    ensures DigitsValue([c] + s) == (c - ZERO) * Pow10(|s|) + DigitsValue(s)
    decreases |s|
  {
    var n := |s|;
    if n == 0 {
      assert ([c] + s)[..0] == [] && s == [];
    } else {
      FirstDigitCounts(c, s[..n - 1]);
      assert ([c] + s)[..n] == [c] + s[..n - 1];
      assert (c - ZERO) * Pow10(n) == (c - ZERO) * Pow10(n - 1) * 10;
    }
  }

  /** What stoi reads: an optional minus sign, then digits up to the first other byte. */
  function Parsed(s: seq<Byte>): int {
    if s != [] && s[0] == MINUS then -DigitsValue(s[1..][..DigitRun(s[1..])])
    else DigitsValue(s[..DigitRun(s)])
  }

  lemma {:induction false} DigitsRoundTrip(v: nat)
    ensures DigitsValue(Digits(v)) == v
    ensures forall k :: 0 <= k < |Digits(v)| ==> IsDigit(Digits(v)[k])
  {
    if v >= 10 {
      DigitsRoundTrip(v / 10);
      var s := Digits(v);
      assert s[..|s| - 1] == Digits(v / 10) && s[|s| - 1] == ZERO + v % 10;
    } else {
      assert Digits(v)[..0] == [];
    }
  }

  lemma {:induction false} RunOfDigits(s: seq<Byte>, rest: seq<Byte>)
    requires forall k :: 0 <= k < |s| ==> IsDigit(s[k])
    requires rest == [] || !IsDigit(rest[0])
    ensures DigitRun(s + rest) == |s|
    decreases |s|
  {
    if s == [] {
      assert s + rest == rest;
    } else {
      assert (s + rest)[1..] == s[1..] + rest;
      RunOfDigits(s[1..], rest);
    }
  }

  /** Reading back a numeral gives the number, whatever non-digit follows it. */
  lemma DecimalRoundTrip(i: int, rest: seq<Byte>)
    requires rest == [] || !IsDigit(rest[0])
    ensures Parsed(Decimal(i) + rest) == i
  {
    hide Digits, DigitRun, DigitsValue;
    var v := if i < 0 then -i else i;
    DigitsRoundTrip(v);
    RunOfDigits(Digits(v), rest);
    assert (Digits(v) + rest)[..|Digits(v)|] == Digits(v);
    if i < 0 {
      assert (Decimal(i) + rest)[1..] == Digits(v) + rest;
    } else {
      assert Digits(v)[0] != MINUS;
    }
  }

  function Pow10(k: nat): nat { if k == 0 then 1 else 10 * Pow10(k - 1) }

  lemma Quotient(n: nat, d: nat, q: nat, r: nat)
    requires r < d && n == d * q + r
    ensures n / d == q
  {
    var q' := n / d;
    assert d * (q' - q) == r - n % d;
    assert d * (q - q') == -(d * (q' - q));
    if q > q' { Scale(d, q - q'); }
    if q < q' { Scale(d, q' - q); }
  }

  lemma Pow10Positive(k: nat)
    ensures Pow10(k) > 0
  {
  }

  lemma DivideTwice(v: nat, p: nat)
    requires p > 0
    ensures v / 10 / p == v / (10 * p)
  {
    var a, q, s := v / 10, v / 10 / p, v / 10 % p;
    assert a == p * q + s;
    assert v == (10 * p) * q + (10 * s + v % 10);
    Quotient(v, 10 * p, q, 10 * s + v % 10);
  }

  /** Every digit of a numeral is the one its place asks for, and the first of
      several is not zero. */
  lemma {:induction false} DigitAt(v: nat, k: nat)
    requires k < |Digits(v)|
    ensures Pow10(|Digits(v)| - 1 - k) > 0 && Digits(v)[k] == ZERO + v / Pow10(|Digits(v)| - 1 - k) % 10
    ensures |Digits(v)| > 1 ==> Digits(v)[0] != ZERO
  {
    var n := |Digits(v)|;
    Pow10Positive(n - 1 - k);
    if v >= 10 {
      DigitAt(v / 10, if k < n - 1 then k else 0);
      if k < n - 1 {
        Pow10Positive(n - 2 - k);
        DivideTwice(v, Pow10(n - 2 - k));
      }
      LeadingDigit(v / 10);
    }
  }

  lemma {:induction false} LeadingDigit(v: nat)
    ensures v > 0 ==> Digits(v)[0] != ZERO
  {
    if v >= 10 { LeadingDigit(v / 10); }
  }

  lemma {:induction false} DigitsLength(v: nat, k: nat)
    requires k >= 1 && v < Pow10(k)
    ensures |Digits(v)| <= k
    decreases k
  {
    if v >= 10 {
      assert Pow10(1) == 10 * Pow10(0) == 10;
      DigitsLength(v / 10, k - 1);
    }
  }

  /** A 32-bit numeral has at most eleven characters. */
  lemma DecimalLength(w: Word)
    ensures 1 <= |Decimal(Signed(w))| <= 11
  {
    var i := Signed(w);
    assert Pow10(10) == 10000000000 by {
      assert Pow10(2) == 100 && Pow10(4) == 10000 && Pow10(6) == 1000000 && Pow10(8) == 100000000;
    }
    DigitsLength(if i < 0 then -i else i, 10);
  }

  // ------------------------------------------------------------- hexadecimal

  /** The eight nibbles of a word, most significant first. */
  function Nibbles(n: Word): (ds: seq<nat>)
    ensures |ds| == 8 && (forall k :: 0 <= k < 8 ==> ds[k] < 16)
  {
    [n / 0x1000_0000, n / 0x100_0000 % 16, n / 0x10_0000 % 16, n / 0x1_0000 % 16,
     n / 0x1000 % 16, n / 0x100 % 16, n / 0x10 % 16, n % 16]
  }

  /** The word eight nibbles make up. */
  function OfNibbles(ds: seq<nat>): nat
    requires |ds| == 8
  {
    ds[0] * 0x1000_0000 + ds[1] * 0x100_0000 + ds[2] * 0x10_0000 + ds[3] * 0x1_0000
    + ds[4] * 0x1000 + ds[5] * 0x100 + ds[6] * 0x10 + ds[7]
  }

  lemma NibblesMakeWord(n: Word)
    ensures OfNibbles(Nibbles(n)) == n
  {
    var a, b, c, d := n / 0x10, n / 0x100, n / 0x1000, n / 0x1_0000;
    assert b == a / 16 && c == b / 16 && d == c / 16;
    var e, f, g := n / 0x10_0000, n / 0x100_0000, n / 0x1000_0000;
    assert e == d / 16 && f == e / 16 && g == f / 16;
  }

  /** rol by four bits. */
  function Rol4(n: Word): Word { n * 16 % WORD_LIMIT + n / 0x1000_0000 }

  /** Rotating the word rotates its nibbles. */
  lemma RolNibbles(ds: seq<nat>)
    requires |ds| == 8 && (forall k :: 0 <= k < 8 ==> ds[k] < 16)
    ensures OfNibbles(ds) < WORD_LIMIT && OfNibbles(ds[1..] + [ds[0]]) == Rol4(OfNibbles(ds))
    ensures OfNibbles(ds) % 16 == ds[7]
  {
    var n := OfNibbles(ds);
    var low := n - ds[0] * 0x1000_0000;
    assert 0 <= low < 0x1000_0000;
    assert n / 0x1000_0000 == ds[0];
    assert n * 16 == ds[0] * WORD_LIMIT + low * 16;
    assert n * 16 % WORD_LIMIT == low * 16;
    assert n % 16 == ds[7] by { assert n == 16 * (n / 16) + n % 16; }
  }

  function HexDigit(d: nat): Byte
    requires d < 16
  {
    if d < 10 then ZERO + d else 55 + d
  }

  /** The digits are upper case, as in hexDigits. */
  lemma HexDigitsInOrder(d: nat)
    requires d < 16
    ensures HexDigit(d) == "0123456789ABCDEF"[d] as int
  {
  }

  function HexString(ds: seq<nat>): (s: seq<Byte>)
    requires forall k :: 0 <= k < |ds| ==> ds[k] < 16
    ensures |s| == |ds| && (forall k :: 0 <= k < |ds| ==> s[k] == HexDigit(ds[k]))
  {
    seq(|ds|, k requires 0 <= k < |ds| => HexDigit(ds[k]))
  }

  /** How many leading digits itox drops: six for 'b', four for 's', else none. */
  function Dropped(kind: Byte): nat {
    if kind == 98 then 6 else if kind == 115 then 4 else 0
  }

  /** The hexadecimal numeral itox gives for a number of some kind. */
  function Hex(n: Word, kind: Byte): seq<Byte> {
    HexString(Nibbles(n))[Dropped(kind)..]
  }

  function Pow16(k: nat): nat { if k == 0 then 1 else 16 * Pow16(k - 1) }

  lemma NibbleAt(n: Word, k: nat)
    requires k < 8
    ensures Pow16(7 - k) > 0 && Nibbles(n)[k] == n / Pow16(7 - k) % 16
  {
    assert Pow16(1) == 16 && Pow16(2) == 0x100 && Pow16(3) == 0x1000 && Pow16(4) == 0x1_0000;
    assert Pow16(5) == 0x10_0000 && Pow16(6) == 0x100_0000 && Pow16(7) == 0x1000_0000;
  }

  /** A hexadecimal numeral has 8, 4 or 2 digits, each the one its place asks for. */
  lemma HexAt(n: Word, kind: Byte, k: nat)
    requires k < |Hex(n, kind)|
    ensures |Hex(n, kind)| == if kind == 98 then 2 else if kind == 115 then 4 else 8
    ensures Pow16(|Hex(n, kind)| - 1 - k) > 0
    ensures Hex(n, kind)[k] == "0123456789ABCDEF"[n / Pow16(|Hex(n, kind)| - 1 - k) % 16] as int
  {
    hide Nibbles, HexDigit, Pow16;
    NibbleAt(n, k + Dropped(kind));
    HexDigitsInOrder(Nibbles(n)[k + Dropped(kind)]);
  }

  /** What stox subtracts: its comparisons are signed. */
  function HexBase(c: Byte): Byte {
    var signed := if c < 128 then c else c - 256;
    if signed < 58 then 48 else if signed < 71 then 55 else 87
  }

  /** stox on the bytes before the terminator. */
  function HexParsed(s: seq<Byte>, acc: Word): Word
    decreases |s|
  {
    if s == [] then acc else HexParsed(s[1..], Wrap(acc * 16 + (s[0] - HexBase(s[0])) % 256))
  }

  /** The value of nibbles, most significant first, after those already in `acc`. */
  function NibbleValue(ds: seq<nat>, acc: nat): (v: nat)
    ensures v >= acc
    decreases |ds|
  {
    if ds == [] then acc else NibbleValue(ds[1..], acc * 16 + ds[0])
  }

  lemma DigitReads(d: nat)
    requires d < 16
    ensures (HexDigit(d) - HexBase(HexDigit(d))) % 256 == d
  {
  }

  /** stox reads upper-case and lower-case digits. */
  lemma BothCasesRead(d: nat, acc: Word)
    requires d < 16
    ensures HexParsed(["0123456789ABCDEF"[d] as int], acc) == Wrap(acc * 16 + d)
    ensures HexParsed(["0123456789abcdef"[d] as int], acc) == Wrap(acc * 16 + d)
  {
  }

  lemma {:induction false} HexParsedConcat(s: seq<Byte>, t: seq<Byte>, acc: Word)
    ensures HexParsed(s + t, acc) == HexParsed(t, HexParsed(s, acc))
    decreases |s|
  {
    if s == [] {
      assert s + t == t;
    } else {
      assert (s + t)[1..] == s[1..] + t;
      HexParsedConcat(s[1..], t, Wrap(acc * 16 + (s[0] - HexBase(s[0])) % 256));
    }
  }

  lemma {:induction false} HexReadsNibbles(ds: seq<nat>, acc: Word)
    requires forall k :: 0 <= k < |ds| ==> ds[k] < 16
    requires NibbleValue(ds, acc) < WORD_LIMIT
    ensures HexParsed(HexString(ds), acc) == NibbleValue(ds, acc)
    decreases |ds|
  {
    hide HexDigit, HexBase;
    if ds != [] {
      DigitReads(ds[0]);
      assert HexString(ds)[1..] == HexString(ds[1..]);
      HexReadsNibbles(ds[1..], acc * 16 + ds[0]);
    }
  }

  /** The last nibbles make up the number modulo their range. */
  lemma LowNibbles(n: Word, ds: seq<nat>)
    requires ds == Nibbles(n)
    ensures n % 0x100 == ds[6] * 16 + ds[7]
    ensures n % 0x1_0000 == ds[4] * 0x1000 + ds[5] * 0x100 + ds[6] * 16 + ds[7]
  {
    hide Nibbles;
    NibblesMakeWord(n);
    var b := ds[6] * 16 + ds[7];
    var w := ds[4] * 16 + ds[5];
    var t := ds[0] * 0x1000 + ds[1] * 0x100 + ds[2] * 0x10 + ds[3];
    assert n == (t * 0x100 + w) * 0x100 + b && b < 0x100;
    assert n == t * 0x1_0000 + (w * 0x100 + b) && w * 0x100 + b < 0x1_0000;
  }

  /** The value of the last nibbles is the number modulo their range. */
  lemma LastNibbles(n: Word, kind: Byte)
    ensures NibbleValue(Nibbles(n)[Dropped(kind)..], 0) ==
      if kind == 98 then n % 0x100 else if kind == 115 then n % 0x1_0000 else n
  {
    hide Nibbles;
    var ds := Nibbles(n);
    NibblesMakeWord(n);
    LowNibbles(n, ds);
    if kind == 98 {
      TwoNibbles(ds[6..], 0);
    } else if kind == 115 {
      FourNibbles(ds[4..], 0);
    } else {
      assert ds[0..] == ds;
      EightNibbles(ds);
    }
  }

  lemma TwoNibbles(ds: seq<nat>, acc: nat)
    requires |ds| == 2
    ensures NibbleValue(ds, acc) == acc * 0x100 + ds[0] * 16 + ds[1]
  {
    var rest := ds[1..];
    assert NibbleValue(ds, acc) == NibbleValue(rest, acc * 16 + ds[0]);
    assert rest[1..] == [];
    assert NibbleValue(rest, acc * 16 + ds[0]) == (acc * 16 + ds[0]) * 16 + ds[1];
  }

  lemma FourNibbles(ds: seq<nat>, acc: nat)
    requires |ds| == 4
    ensures NibbleValue(ds, acc) == acc * 0x1_0000 + ds[0] * 0x1000 + ds[1] * 0x100 + ds[2] * 16 + ds[3]
  {
    assert ds[1..][1..] == ds[2..];
    TwoNibbles(ds[2..], (acc * 16 + ds[0]) * 16 + ds[1]);
  }

  lemma EightNibbles(ds: seq<nat>)
    requires |ds| == 8
    ensures NibbleValue(ds, 0) == OfNibbles(ds)
  {
    var acc := ds[0] * 0x1000 + ds[1] * 0x100 + ds[2] * 16 + ds[3];
    FourSteps(ds, 0);
    FourNibbles(ds[4..], acc);
  }

  lemma FourSteps(ds: seq<nat>, acc: nat)
    requires |ds| >= 4
    ensures NibbleValue(ds, acc)
      == NibbleValue(ds[4..], acc * 0x1_0000 + ds[0] * 0x1000 + ds[1] * 0x100 + ds[2] * 16 + ds[3])
  {
    assert ds[1..][1..] == ds[2..] && ds[2..][1..] == ds[3..] && ds[3..][1..] == ds[4..];
    assert NibbleValue(ds, acc) == NibbleValue(ds[1..], acc * 16 + ds[0]);
    assert NibbleValue(ds[1..], acc * 16 + ds[0]) == NibbleValue(ds[2..], (acc * 16 + ds[0]) * 16 + ds[1]);
    assert NibbleValue(ds[2..], (acc * 16 + ds[0]) * 16 + ds[1])
      == NibbleValue(ds[3..], ((acc * 16 + ds[0]) * 16 + ds[1]) * 16 + ds[2]);
  }

  /** stox undoes itox: the whole number, or its low 16 or 8 bits. */
  lemma HexRoundTrip(n: Word, kind: Byte)
    ensures HexParsed(Hex(n, kind), 0) ==
      if kind == 98 then n % 0x100 else if kind == 115 then n % 0x1_0000 else n
  {
    var ds := Nibbles(n)[Dropped(kind)..];
    LastNibbles(n, kind);
    assert Hex(n, kind) == HexString(ds);
    HexReadsNibbles(ds, 0);
  }
}
