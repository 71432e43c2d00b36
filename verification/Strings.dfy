/** string.asm as it runs: conversions and kprintf over the program's data
    segment, with stores four bytes wide that overlap and overrun. */
module Strings {
  import opened Options
  import opened Bytes
  import opened Machine
  import opened Numbers
  import opened Screen

  // printBuf, substrBuf, itosBuf, hexBuf and hexDigits follow each other.
  const PRINT_SIZE := 180
  const ITOS_BUF := 360
  const HEX_BUF := 370
  const HEX_DIGITS := 380
  const DATA_SIZE := 397

  /** `s` followed by a zero byte, at `p`. */
  predicate HoldsString(v: seq<Byte>, p: nat, s: seq<Byte>) {
    p + |s| < |v| && v[p..p + |s|] == s && v[p + |s|] == 0
  }

  /** Little-endian bytes of a word. */
  function DwordByte(w: Word, k: nat): Byte
    requires k < 4
  {
    if k == 0 then w % 0x100 else if k == 1 then w / 0x100 % 0x100 else if k == 2 then w / 0x1_0000 % 0x100
    else w / 0x100_0000
  }

  // ----------------------------------------------------------- meaning of kprintf

  /** An argument slot: a number, or a pointer to a string. A four-byte read of
      the string's end also takes the two bytes behind its terminator. */
  datatype Arg = Num(w: Word) | Str(s: seq<Byte>, next: Byte, nextButOne: Byte) {
    function Memory(): seq<Byte>
      requires Str?
    {
      s + [0, next, nextButOne]
    }
  }

  const PERCENT := 37
  const BACKSLASH := 92

  /** The text one conversion stands for; None when the argument does not fit
      the letter: a string that is empty, a character that is no non-zero byte. */
  function Conversion(letter: Byte, kind: Byte, arg: Arg): (r: Option<seq<Byte>>)
    ensures r.Some? ==> |r.value| > 0 && 0 !in r.value
  {
    match arg
    case Str(s, _, _) => if letter == 115 && s != [] && 0 !in s then Some(s) else None
    case Num(w) =>
      if letter == 115 then None
      else if letter == 120 then HexHasNoZero(w, kind); Some(Hex(w, kind))
      else if letter == 100 || letter == 105 then DecimalHasNoZero(w); Some(Decimal(Signed(w)))
      else if 0 < w < 256 then Some([w]) else None
  }

  lemma HexHasNoZero(w: Word, kind: Byte)
    ensures |Hex(w, kind)| > 0 && 0 !in Hex(w, kind)
  {
  }

  lemma DecimalHasNoZero(w: Word)
    ensures |Decimal(Signed(w))| > 0 && 0 !in Decimal(Signed(w))
  {
    var i := Signed(w);
    DigitsRoundTrip(if i < 0 then -i else i);
  }

  /** The text a format stands for; None when it ends inside a directive or an
      argument is missing or does not fit. */
  function Expand(f: seq<Byte>, args: seq<Arg>): (r: Option<seq<Byte>>)
    ensures r.Some? ==> 0 !in r.value
    decreases |f|
  {
    if f == [] then Some([])
    else if f[0] == 0 then None
    else if f[0] == BACKSLASH then
      if |f| == 1 then None else
      var rest :- Expand(f[2..], args);
      Some([if f[1] == 116 then 9 else 10] + rest)
    else if f[0] == PERCENT then
      if |f| == 1 || args == [] || (f[1] == 120 && |f| == 2) then None else
      var text :- Conversion(f[1], if f[1] == 120 then f[2] else 0, args[0]);
      var rest :- Expand(f[if f[1] == 120 then 3 else 2..], args[1..]);
      Some(text + rest)
    else
      var rest :- Expand(f[1..], args);
      Some([f[0]] + rest)
  }

  // ------------------------------------------------------ laws of the expansion

  /** %d and %i print the signed value in decimal: it reads back, with no character
      that is not needed. */
  lemma DecimalConversion(letter: Byte, kind: Byte, w: Word)
    requires letter == 100 || letter == 105
    ensures var r := Conversion(letter, kind, Num(w));
      && r.Some? && Parsed(r.value) == Signed(w)
      && (var digits := if Signed(w) < 0 then r.value[1..] else r.value;
          && (Signed(w) < 0 ==> r.value[0] == MINUS) && |digits| > 0
          && (forall k :: 0 <= k < |digits| ==> IsDigit(digits[k])) && (|digits| > 1 ==> digits[0] != ZERO))
  {
    var i := Signed(w);
    DecimalRoundTrip(i, []);
    assert Decimal(i) + [] == Decimal(i);
    DigitsRoundTrip(if i < 0 then -i else i);
    DigitAt(if i < 0 then -i else i, 0);
  }

  /** %x prints 8, 4 or 2 upper-case hexadecimal digits, one for each place. */
  lemma HexConversion(kind: Byte, w: Word, k: nat)
    requires k < if kind == 98 then 2 else if kind == 115 then 4 else 8
    ensures var r := Conversion(120, kind, Num(w));
      && r.Some? && |r.value| == (if kind == 98 then 2 else if kind == 115 then 4 else 8)
      && HexParsed(r.value, 0) == (if kind == 98 then w % 0x100 else if kind == 115 then w % 0x1_0000 else w)
      && Pow16(|r.value| - 1 - k) > 0
      && r.value[k] == "0123456789ABCDEF"[w / Pow16(|r.value| - 1 - k) % 16] as int
  {
    HexHasNoZero(w, kind);
    HexRoundTrip(w, kind);
    HexAt(w, kind, k);
  }

  /** %s prints the string, %c and every other letter the byte; a pointer fits only
      %s, and a number never does. */
  lemma OtherConversions(letter: Byte, kind: Byte, arg: Arg)
    ensures letter != 115 && letter != 120 && letter != 100 && letter != 105 && arg.Num? ==>
      Conversion(letter, kind, arg) == if 0 < arg.w < 256 then Some([arg.w]) else None
    ensures letter == 115 && arg.Str? && arg.s != [] && 0 !in arg.s ==> Conversion(letter, kind, arg) == Some(arg.s)
    ensures (letter == 115) != arg.Str? ==> Conversion(letter, kind, arg) == None
  {
  }

  /** Text without directives stands for itself. */
  lemma {:induction false} PlainText(f: seq<Byte>, args: seq<Arg>)
    requires PERCENT !in f && BACKSLASH !in f && 0 !in f
    ensures Expand(f, args) == Some(f)
    decreases |f|
  {
    if f != [] {
      PlainText(f[1..], args);
      assert f == [f[0]] + f[1..];
    }
  }

  /** A directive stands for the text of its argument, an escape for a tab or a newline. */
  lemma OneDirective(letter: Byte, kind: Byte, arg: Arg)
    ensures letter != 120 ==> Expand([PERCENT, letter], [arg]) == Conversion(letter, 0, arg)
    ensures Expand([PERCENT, 120, kind], [arg]) == Conversion(120, kind, arg)
    ensures Expand([BACKSLASH, letter], []) == Some([if letter == 116 then 9 else 10])
  {
    hide Conversion;
    var f, g, h := [PERCENT, letter], [PERCENT, 120, kind], [BACKSLASH, letter];
    var none: seq<Byte>, noArg: seq<Arg> := [], [];
    assert f[2..] == none && g[3..] == none && h[2..] == none && [arg][1..] == noArg;
    assert Expand(none, noArg) == Some(none);
    assert forall text: seq<Byte> {:trigger text + none} :: text + none == text;
    assert f[0] == PERCENT && f[1] == letter && g[0] == PERCENT && g[1] == 120 && g[2] == kind && h[0] == BACKSLASH;
  }

  /** How many arguments a format takes. */
  function Directives(f: seq<Byte>): nat
    decreases |f|
  {
    if |f| < 2 then 0
    else if f[0] == BACKSLASH then Directives(f[2..])
    else if f[0] == PERCENT then 1 + Directives(f[if f[1] == 120 && |f| > 2 then 3 else 2..])
    else Directives(f[1..])
  }

  /** The text of the first character, escape or directive of a format, and what it
      takes, whatever follows the format. */
  lemma ExpandHead(f: seq<Byte>, a: seq<Arg>, g: seq<Byte>, b: seq<Arg>)
    returns (head: seq<Byte>, step: nat, taken: nat)
    requires f != [] && Expand(f, a).Some?
    ensures 0 < step <= |f| && taken <= |a| && Directives(f) == taken + Directives(f[step..])
    ensures var rest := Expand(f[step..], a[taken..]); rest.Some? && Expand(f, a) == Some(head + rest.value)
    ensures Expand(f + g, a + b) ==
      match Expand(f[step..] + g, a[taken..] + b) case Some(text) => Some(head + text) case None => None
  {
    hide Conversion;
    taken := if f[0] == PERCENT then 1 else 0;
    step := if f[0] == BACKSLASH then 2 else if f[0] != PERCENT then 1 else if f[1] == 120 then 3 else 2;
    assert a[0..] == a && (a + b)[taken..] == a[taken..] + b && (f + g)[step..] == f[step..] + g;
    assert forall k :: 0 <= k < |f| ==> (f + g)[k] == f[k];
    head := if f[0] == BACKSLASH then [if f[1] == 116 then 9 else 10] else if f[0] != PERCENT then [f[0]]
      else Conversion(f[1], if f[1] == 120 then f[2] else 0, a[0]).value;
  }

  /** Two formats one after the other, with their arguments one after the other,
      stand for the one text and then the other. */
  lemma {:induction false} ExpandConcat(f: seq<Byte>, a: seq<Arg>, g: seq<Byte>, b: seq<Arg>)
    requires Expand(f, a).Some? && |a| == Directives(f)
    ensures Expand(f + g, a + b) ==
      match Expand(g, b) case Some(text) => Some(Expand(f, a).value + text) case None => None
    decreases |f|
  {
    if f == [] {
      assert f + g == g && a + b == b;
      assert Expand(g, b).Some? ==> [] + Expand(g, b).value == Expand(g, b).value;
    } else {
      var head, step, taken := ExpandHead(f, a, g, b);
      hide Expand, Directives;
      ExpandConcat(f[step..], a[taken..], g, b);
      if Expand(g, b).Some? {
        assert (head + Expand(f[step..], a[taken..]).value) + Expand(g, b).value
          == head + (Expand(f[step..], a[taken..]).value + Expand(g, b).value);
      }
    }
  }

  /** "%d" of 42. */
  lemma FortyTwo()
    ensures Expand([PERCENT, 100], [Num(42)]) == Some([52, 50])
  {
    OneDirective(100, 0, Num(42));
    hide Expand;
    assert Digits(4) == [52];
    assert Digits(42) == Digits(4) + [50] == [52, 50];
    assert Decimal(Signed(42)) == Digits(42);
  }

  // ------------------------------------------------------------ string helpers

  /** strlen starts counting at one. */
  method Strlen(v: seq<Byte>) returns (n: nat)
    requires exists k :: 1 <= k < |v| && v[k] == 0
    ensures 1 <= n < |v| && v[n] == 0 && (forall k :: 1 <= k < n ==> v[k] != 0)
    ensures 0 !in v[..n] <==> v[0] != 0
  {
    n := 1;
    while v[n] != 0
      invariant 1 <= n < |v| && (forall k :: 1 <= k < n ==> v[k] != 0)
      decreases |v| - n
    {
      n := n + 1;
    }
    assert v[..n][0] == v[0];
  }

  /** strcmp: 0 exactly when the strings before the zero bytes are equal. */
  method Strcmp(v: seq<Byte>, w: seq<Byte>, ghost s: seq<Byte>, ghost t: seq<Byte>) returns (differ: nat)
    requires HoldsString(v, 0, s) && HoldsString(w, 0, t) && 0 !in s && 0 !in t
    ensures differ == if s == t then 0 else 1
  {
    var i := 0;
    while true
      invariant i <= |s| && i <= |t| && s[..i] == t[..i]
      decreases |s| - i
    {
      assert i < |s| ==> v[i] == v[0..0 + |s|][i];
      assert i < |t| ==> w[i] == w[0..0 + |t|][i];
      if v[i] != w[i] {
        return 1;
      }
      if v[i] == 0 {
        return 0;
      }
      i := i + 1;
    }
  }

  class Formatter {
    const data: array<Byte>

    ghost predicate Valid()
      reads data
    {
      data.Length >= DATA_SIZE && (forall d :: 0 <= d < 16 ==> data[HEX_DIGITS + d] == HexDigit(d))
    }

    method StoreDword(at: nat, w: Word)
      requires at + 4 <= data.Length
      modifies data
      ensures forall b :: 0 <= b < data.Length ==>
        data[b] == if at <= b < at + 4 then DwordByte(w, b - at) else old(data[b])
    {
      data[at], data[at + 1], data[at + 2], data[at + 3] :=
        DwordByte(w, 0), DwordByte(w, 1), DwordByte(w, 2), DwordByte(w, 3);
    }

    /** The division loop of itos: digits pushed, last one first. */
    method PushDigits(v: Word) returns (stack: seq<Byte>)
      ensures stack == Digits(v)
    {
      stack := [];
      var eax: nat := v;
      while true
        invariant Digits(v) == Digits(eax) + stack
        decreases eax
      {
        var edx := eax % 10;
        var quotient := eax / 10;
        ghost var before := stack;
        stack := [ZERO + edx] + stack;
        if quotient == 0 {
          assert Digits(eax) == [ZERO + edx];
          break;
        }
        assert Digits(eax) + before == Digits(quotient) + stack;
        eax := quotient;
      }
    }

    /** The popping loop: each digit is stored as a double word, so the last
        store leaves three zero bytes behind it. */
    method PopDigits(esi: nat, stack: seq<Byte>)
      requires |stack| > 0 && esi + |stack| + 3 <= data.Length
      modifies data
      ensures HoldsString(data[..], esi, stack)
      ensures forall b :: 0 <= b < data.Length && !(esi <= b < esi + |stack| + 3) ==> data[b] == old(data[b])
    {
      var i := 0;
      while true
        invariant i < |stack|
        invariant forall k :: 0 <= k < i ==> data[esi + k] == stack[k]
        invariant forall b :: 0 <= b < data.Length && !(esi <= b < esi + |stack| + 3) ==> data[b] == old(data[b])
        decreases |stack| - i
      {
        StoreDword(esi + i, stack[i]);
        assert data[esi + i] == stack[i] && data[esi + i + 1] == 0;
        i := i + 1;
        if i == |stack| { break; }
      }
    }

    /** itos: the decimal numeral at itosBuf. The terminator comes from the last
        four-byte store only; all stores stay within 14 bytes. */
    method Itos(n: Word) returns (p: nat)
      requires Valid()
      modifies data
      ensures Valid() && p == ITOS_BUF && HoldsString(data[..], p, Decimal(Signed(n)))
      ensures forall b :: 0 <= b < data.Length && !(ITOS_BUF <= b < ITOS_BUF + 14) ==> data[b] == old(data[b])
    {
      hide Digits, Wrap;
      DecimalLength(n);
      var eax, esi := n, ITOS_BUF;
      if n >= 0x8000_0000 {
        data[esi] := MINUS;
        esi := esi + 1;
        eax := Wrap(0 - n as int);
        Negated(n);
      }
      var stack := PushDigits(eax);
      PopDigits(esi, stack);
      p := ITOS_BUF;
      assert data[p..p + |Decimal(Signed(n))|] == Decimal(Signed(n));
    }

    /** itox: eight nibbles rotated out of the word, then a zero byte. */
    method Itox(n: Word, kind: Byte) returns (p: nat)
      requires Valid()
      modifies data
      ensures Valid() && p == HEX_BUF + Dropped(kind) && HoldsString(data[..], p, Hex(n, kind))
      ensures forall b :: 0 <= b < data.Length && !(HEX_BUF <= b < HEX_BUF + 9) ==> data[b] == old(data[b])
    {
      hide OfNibbles, Nibbles, Rol4, HexDigit;
      ghost var ds := Nibbles(n);
      NibblesMakeWord(n);
      var eax := n;
      assert ds[0..] + ds[..0] == ds;
      for i := 0 to 8
        invariant Valid() && eax == OfNibbles(ds[i..] + ds[..i])
        invariant forall k :: 0 <= k < i ==> data[HEX_BUF + k] == HexDigit(ds[k])
        invariant forall b :: 0 <= b < data.Length && !(HEX_BUF <= b < HEX_BUF + i) ==> data[b] == old(data[b])
      {
        RotateStep(ds, i, eax);
        eax := Rol4(eax);
        data[HEX_BUF + i] := data[HEX_DIGITS + eax % 16];
      }
      data[HEX_BUF + 8] := 0;
      p := HEX_BUF + Dropped(kind);
      assert data[p..p + |Hex(n, kind)|] == Hex(n, kind);
    }

    /** stoi from `at`: wraps in 32 bits. */
    method Stoi(at: nat) returns (eax: Word)
      requires at < data.Length
      requires var s := data[at..];
        (s[0] == MINUS ==> DigitRun(s[1..]) < |s| - 1) && (s[0] != MINUS ==> DigitRun(s) < |s|)
      ensures eax == Wrap(Parsed(data[at..]))
    {
      hide Wrap, DigitRun;
      var esi, negative := at, data[at] == MINUS;
      if negative {
        esi := esi + 1;
        assert data[at..][1..] == data[esi..];
      }
      ghost var s := data[esi..];
      ghost var n := DigitRun(s);
      ghost var start := esi;
      eax := 0;
      assert s[..0] == [] && Wrap(0) == 0 by { NoDigits(); }
      while ZERO <= data[esi] <= ZERO + 9
        invariant start <= esi <= start + n && eax == Wrap(DigitsValue(s[..esi - start]))
        decreases start + n - esi
      {
        assert data[esi] == s[esi - start];
        DigitStep(s, esi - start);
        eax := Wrap(Wrap(eax * 10) + data[esi] - ZERO);
        esi := esi + 1;
      }
      assert data[esi] == s[esi - start];
      assert esi - start == n;
      if negative {
        WrapNegate(DigitsValue(s[..n]));
        eax := Wrap(0 - eax as int);
      }
    }

    /** stox from `at` up to the zero byte that ends `s`. */
    method Stox(at: nat, ghost s: seq<Byte>) returns (eax: Word)
      requires HoldsString(data[..], at, s) && 0 !in s
      ensures eax == HexParsed(s, 0)
    {
      hide HexParsed, HexBase, Wrap;
      eax := 0;
      var ebx := at;
      assert s[0..] == s;
      assert forall j :: at <= j < at + |s| ==> data[j] == s[j - at] && data[j] != 0 by {
        assert forall j :: at <= j < at + |s| ==> data[..][at..at + |s|][j - at] == data[j] && s[j - at] in s;
      }
      while data[ebx] != 0
        invariant at <= ebx <= at + |s| && HexParsed(s[ebx - at..], eax) == HexParsed(s, 0)
        decreases at + |s| - ebx
      {
        assert ebx < at + |s| && data[..][at..at + |s|][ebx - at] == data[ebx];
        HexStep(s, ebx - at, eax);
        eax := Wrap(Wrap(eax * 16) + (data[ebx] - HexBase(data[ebx])) % 256);
        ebx := ebx + 1;
      }
      assert ebx == at + |s|;
      assert s[|s|..] == [];
      HexDone(eax);
    }

    // --------------------------------------------------------------- kprintf

    /** `push dword [src+i]`, `pop dword [at]` */
    method CopyDword(at: nat, src: seq<Byte>, i: nat)
      requires at + 4 <= data.Length && i + 4 <= |src|
      modifies data
      ensures forall b :: 0 <= b < data.Length ==>
        data[b] == if at <= b < at + 4 then src[i + (b - at)] else old(data[b])
    {
      data[at], data[at + 1], data[at + 2], data[at + 3] := src[i], src[i + 1], src[i + 2], src[i + 3];
    }

    /** The .addStr loop: the string's terminator arrives with its last character. */
    method AddStr(ecx: nat, src: seq<Byte>, ghost text: seq<Byte>) returns (next: nat)
      requires HoldsString(src, 0, text) && text != [] && 0 !in text && |src| >= |text| + 3
      requires ecx + |text| + 3 <= data.Length
      modifies data
      ensures next == ecx + |text| && HoldsString(data[..], ecx, text)
      ensures forall b :: 0 <= b < data.Length && !(ecx <= b < ecx + |text| + 3) ==> data[b] == old(data[b])
    {
      assert forall k :: 0 <= k < |text| ==> src[k] == src[0..0 + |text|][k] == text[k];
      var i := 0;
      while true
        invariant i < |text|
        invariant forall k :: 0 <= k < i ==> data[ecx + k] == text[k]
        invariant forall b :: 0 <= b < data.Length && !(ecx <= b < ecx + |text| + 3) ==> data[b] == old(data[b])
        decreases |text| - i
      {
        CopyDword(ecx + i, src, i);
        assert data[ecx + i] == text[i] && data[ecx + i + 1] == src[i + 1];
        i := i + 1;
        if src[i] == 0 { break; }
      }
      assert i == |text|;
      next := ecx + i;
    }

    /** The text of one conversion at `ecx`, followed by a zero byte. */
    method AddConversion(ecx: nat, letter: Byte, kind: Byte, arg: Arg, ghost text: seq<Byte>)
      returns (next: nat)
      requires Valid() && Conversion(letter, kind, arg) == Some(text) && ecx + |text| + 3 <= ITOS_BUF
      modifies data
      ensures Valid() && next == ecx + |text| && HoldsString(data[..], ecx, text)
      ensures forall b :: 0 <= b < ITOS_BUF && !(ecx <= b < ecx + |text| + 3) ==> data[b] == old(data[b])
    {
      if letter == 115 {
        assert HoldsString(arg.Memory(), 0, text);
        next := AddStr(ecx, arg.Memory(), text);
      } else if letter == 120 {
        var p := Itox(arg.w, kind);
        StringFrom(data[..], p, text);
        next := AddStr(ecx, data[p..], text);
      } else if letter == 100 || letter == 105 {
        DecimalLength(arg.w);
        var p := Itos(arg.w);
        StringFrom(data[..], p, text);
        next := AddStr(ecx, data[p..], text);
      } else {
        StoreDword(ecx, arg.w);
        assert data[ecx] == arg.w && data[ecx + 1] == 0;
        assert data[..][ecx..ecx + 1] == text;
        next := ecx + 1;
      }
    }

    /** kprintf up to the call of puts: printBuf holds the expansion of the format
        and a terminator, which only ever comes from an overlapping store. A long
        expansion goes on into substrBuf, which nothing uses, up to itosBuf. With an
        empty format nothing is stored, so printBuf keeps what it held before. */
    method Format(fmt: seq<Byte>, ghost n: nat, args: seq<Arg>, ghost out: seq<Byte>)
      requires Valid() && n + 4 <= |fmt| && fmt[n] == 0
      requires Expand(fmt[..n], args) == Some(out) && |out| + 3 <= ITOS_BUF
      modifies data
      ensures Valid() && 0 !in out
      ensures HoldsString(data[..], 0, out) <==> out != [] || old(data[0]) == 0
      ensures out == [] ==> forall b :: 0 <= b < data.Length ==> data[b] == old(data[b])
      ensures forall b :: PRINT_SIZE <= b < ITOS_BUF && |out| + 3 <= b ==> data[b] == old(data[b])
    {
      hide Expand, Conversion;
      var ebx: nat, ecx: nat, edi: nat := 0, 0, 0;
      assert fmt[0..n] == fmt[..n] && args[0..] == args;
      while true
        invariant Valid() && ebx <= n && edi <= |args| && ecx <= |out|
        invariant Expand(fmt[ebx..n], args[edi..]) == Some(out[ecx..])
        invariant forall k :: 0 <= k < ecx ==> data[k] == out[k]
        invariant ecx > 0 ==> data[ecx] == 0 || data[ecx] == fmt[ebx]
        invariant forall b :: PRINT_SIZE <= b < ITOS_BUF && |out| + 3 <= b ==> data[b] == old(data[b])
        invariant ecx == 0 ==> forall b :: 0 <= b < data.Length ==> data[b] == old(data[b])
        decreases n - ebx
      {
        var c := fmt[ebx];
        ExpandStep(fmt, n, ebx, args, edi, out, ecx);
        if c == PERCENT {
          var letter := fmt[ebx + 1];
          var kind := if letter == 120 then fmt[ebx + 2] else 0;
          ghost var text := Conversion(letter, kind, args[edi]).value;
          var next := AddConversion(ecx, letter, kind, args[edi], text);
          forall b | ecx <= b < next ensures data[b] == out[b] {
            assert data[..][ecx..next][b - ecx] == text[b - ecx] == out[ecx..next][b - ecx];
          }
          ebx := if letter == 120 then ebx + 3 else ebx + 2;
          edi := edi + 1;
          ecx := next;
        } else if c == BACKSLASH {
          StoreDword(ecx, if fmt[ebx + 1] == 116 then 9 else 10);
          assert data[ecx + 1] == 0;
          ebx, ecx := ebx + 2, ecx + 1;
        } else if c == 0 {
          break;
        } else {
          CopyDword(ecx, fmt, ebx);
          assert data[ecx + 1] == fmt[ebx + 1];
          ebx, ecx := ebx + 1, ecx + 1;
        }
      }
      assert data[..][0..0 + |out|] == out;
    }

    /** kprintf: format, then puts. When the expansion is empty, the string that was
        in printBuf before, `kept`, is printed again. */
    method Kprintf(console: Console, fmt: seq<Byte>, ghost n: nat, args: seq<Arg>, ghost out: seq<Byte>,
                   ghost kept: seq<Byte>)
      requires Valid() && console.Valid() && console.vram != data && n + 4 <= |fmt| && fmt[n] == 0
      requires Expand(fmt[..n], args) == Some(out) && |out| + 3 <= ITOS_BUF && TAB !in out
      requires out == [] ==> HoldsString(data[..], 0, kept) && 0 !in kept && TAB !in kept
      modifies data, console`x, console`y, console`log, console.vram
      ensures Valid() && console.Valid()
      ensures console.log == FeedAll(old(console.log), if out == [] then kept else out, console.textColor)
    {
      Format(fmt, n, args, out);
      ghost var text := if out == [] then kept else out;
      assert HoldsString(data[..], 0, text);
      assert forall k :: 0 <= k < |text| ==> data[..][k] == data[..][0..0 + |text|][k] == text[k];
      assert data[..][..|text|] == text;
      console.Puts(data[..], |text|);
    }

    /** itos then stoi gives the word back, -2^31 included. */
    method DecimalThereAndBack(n: Word) returns (m: Word)
      requires Valid()
      modifies data
      ensures m == n
    {
      var p := Itos(n);
      var text := Decimal(Signed(n));
      var tail := data[p + |text|..];
      assert data[p..] == text + tail;
      DecimalRoundTrip(Signed(n), tail);
      SignedInverse(n);
      StopsAtZero(Signed(n), tail);
      m := Stoi(p);
    }

    /** itox then stox: the word, or its low 16 or 8 bits. */
    method HexThereAndBack(n: Word, kind: Byte) returns (m: Word)
      requires Valid()
      modifies data
      ensures m == if kind == 98 then n % 0x100 else if kind == 115 then n % 0x1_0000 else n
    {
      var p := Itox(n, kind);
      HexHasNoZero(n, kind);
      HexRoundTrip(n, kind);
      m := Stox(p, Hex(n, kind));
    }
  }

  lemma Negated(n: Word)
    requires n >= 0x8000_0000
    ensures Wrap(0 - n as int) == -Signed(n)
  {
  }

  lemma NoDigits()
    ensures Wrap(0) == 0
  {
  }

  lemma HexDone(acc: Word)
    ensures HexParsed([], acc) == acc
  {
  }

  lemma DigitStep(s: seq<Byte>, i: nat)
    requires i < |s|
    ensures Wrap(Wrap(Wrap(DigitsValue(s[..i])) * 10) + s[i] - ZERO) == Wrap(DigitsValue(s[..i + 1]))
      || s[i] < ZERO
  {
    assert s[..i + 1][..i] == s[..i];
    if s[i] >= ZERO { WrapStep(DigitsValue(s[..i]), s[i] - ZERO); }
  }

  lemma HexStep(s: seq<Byte>, i: nat, acc: Word)
    requires i < |s|
    ensures HexParsed(s[i..], acc) == HexParsed(s[i + 1..], Wrap(Wrap(acc * 16) + (s[i] - HexBase(s[i])) % 256))
  {
    assert s[i..][1..] == s[i + 1..];
    WrapAdd(acc * 16, (s[i] - HexBase(s[i])) % 256);
  }

  /** One rotation of the word brings the next nibble to the bottom. */
  lemma RotateStep(ds: seq<nat>, i: nat, eax: Word)
    requires |ds| == 8 && (forall k :: 0 <= k < 8 ==> ds[k] < 16) && i < 8
    requires eax == OfNibbles(ds[i..] + ds[..i])
    ensures Rol4(eax) == OfNibbles(ds[i + 1..] + ds[..i + 1]) && Rol4(eax) % 16 == ds[i]
  {
    hide OfNibbles, Rol4;
    var turned, next := ds[i..] + ds[..i], ds[i + 1..] + ds[..i + 1];
    assert turned[1..] + [turned[0]] == next && next[7] == ds[i];
    RolNibbles(turned);
    RolNibbles(next);
  }

  lemma StringFrom(v: seq<Byte>, p: nat, text: seq<Byte>)
    requires HoldsString(v, p, text)
    ensures HoldsString(v[p..], 0, text)
  {
    assert v[p..][0..0 + |text|] == v[p..p + |text|];
  }

  /** What is left of the expansion at one point of the format. */
  lemma ExpandStep(fmt: seq<Byte>, n: nat, i: nat, args: seq<Arg>, k: nat, out: seq<Byte>, pos: nat)
    requires n < |fmt| && fmt[n] == 0 && i <= n && k <= |args| && pos <= |out|
    requires Expand(fmt[i..n], args[k..]) == Some(out[pos..])
    ensures fmt[i] == 0 ==> i == n && pos == |out|
    ensures fmt[i] == PERCENT ==>
      && i + 1 < n && k < |args| && (fmt[i + 1] == 120 ==> i + 2 < n)
      && var text := Conversion(fmt[i + 1], if fmt[i + 1] == 120 then fmt[i + 2] else 0, args[k]);
      && text.Some? && pos + |text.value| <= |out| && out[pos..pos + |text.value|] == text.value
      && Expand(fmt[if fmt[i + 1] == 120 then i + 3 else i + 2..n], args[k + 1..]) == Some(out[pos + |text.value|..])
    ensures fmt[i] == BACKSLASH ==>
      && i + 1 < n && pos < |out| && out[pos] == (if fmt[i + 1] == 116 then 9 else 10)
      && Expand(fmt[i + 2..n], args[k..]) == Some(out[pos + 1..])
    ensures fmt[i] != 0 && fmt[i] != PERCENT && fmt[i] != BACKSLASH ==>
      && i < n && pos < |out| && out[pos] == fmt[i]
      && Expand(fmt[i + 1..n], args[k..]) == Some(out[pos + 1..])
  {
    var f := fmt[i..n];
    if i < n {
      assert f[0] == fmt[i];
      if fmt[i] == BACKSLASH {
        assert f[2..] == fmt[i + 2..n];
        assert out[pos + 1..] == out[pos..][1..];
      } else if fmt[i] == PERCENT {
        assert args[k..][0] == args[k] && args[k..][1..] == args[k + 1..];
        var x := if f[1] == 120 then 3 else 2;
        assert f[x..] == fmt[i + x..n];
        var text := Conversion(f[1], if f[1] == 120 then f[2] else 0, args[k]).value;
        assert out[pos..][|text|..] == out[pos + |text|..];
        assert out[pos..][..|text|] == text;
      } else {
        assert f[1..] == fmt[i + 1..n];
        assert out[pos + 1..] == out[pos..][1..];
      }
    }
  }

  lemma StopsAtZero(i: int, tail: seq<Byte>)
    requires |tail| > 0 && !IsDigit(tail[0])
    ensures var s := Decimal(i) + tail;
      (s[0] == MINUS ==> DigitRun(s[1..]) < |s| - 1) && (s[0] != MINUS ==> DigitRun(s) < |s|)
  {
    hide Digits, DigitRun;
    var v := if i < 0 then -i else i;
    DigitsRoundTrip(v);
    RunOfDigits(Digits(v), tail);
    assert i >= 0 ==> Decimal(i)[0] != MINUS;
    if i < 0 { assert (Decimal(i) + tail)[1..] == Digits(v) + tail; }
  }

  lemma WrapStep(v: int, d: nat)
    ensures Wrap(Wrap(Wrap(v) * 10) + d) == Wrap(v * 10 + d)
  {
    var q := v / WORD_LIMIT;
    assert v == WORD_LIMIT * q + Wrap(v);
    var t: int := Wrap(v) * 10 + d;
    assert v * 10 + d == WORD_LIMIT * (10 * q) + t;
    ModuloShift(10 * q, t);
    WrapAdd(Wrap(v) * 10, d);
  }

  lemma ModuloShift(q: int, t: int)
    ensures Wrap(WORD_LIMIT * q + t) == Wrap(t)
  {
    var k := t / WORD_LIMIT;
    assert WORD_LIMIT * q + t == WORD_LIMIT * (q + k) + Wrap(t);
  }

  lemma WrapAdd(v: int, d: int)
    ensures Wrap(Wrap(v) + d) == Wrap(v + d)
  {
    var q := v / WORD_LIMIT;
    var t: int := Wrap(v) + d;
    assert v + d == WORD_LIMIT * q + t;
    ModuloShift(q, t);
  }

  lemma WrapNegate(v: int)
    ensures Wrap(0 - Wrap(v) as int) == Wrap(-v)
  {
    var q := v / WORD_LIMIT;
    var r: int := Wrap(v);
    assert -v == WORD_LIMIT * (0 - q) + (0 - r);
    ModuloShift(0 - q, 0 - r);
  }
}
