/** memory.asm: the two byte loops every other module copies and fills with. */
module Bytes {
  type Byte = b: int | 0 <= b < 256

  /** kmemset: stores, then counts down, so at least one byte is written. */
  method Kmemset(a: array<Byte>, dst: nat, value: Byte, count: nat)
    requires count > 0 && dst + count <= a.Length
    modifies a
    ensures forall k :: 0 <= k < a.Length ==> a[k] == if dst <= k < dst + count then value else old(a[k])
  {
    var at, ecx := dst, count;
    while true
      invariant 0 < ecx <= count && at == dst + count - ecx
      invariant forall k :: 0 <= k < a.Length ==> a[k] == if dst <= k < at then value else old(a[k])
      decreases ecx
    {
      a[at] := value;
      at := at + 1;
      ecx := ecx - 1;
      if ecx == 0 { break; }
    }
  }

  /** The source byte a forward copy leaves `k` bytes into the destination: when
      the destination starts inside the source, the gap between them repeats. */
  function CopiedFrom(dst: nat, src: nat, k: nat): (r: nat)
    ensures src <= r <= src + k
  {
    if src < dst then src + k % (dst - src) else src + k
  }

  /** The byte read for position `k`: untouched so far, or written a gap earlier. */
  lemma CopiedFromStep(dst: nat, src: nat, k: nat)
    ensures dst <= src || k < dst - src ==> CopiedFrom(dst, src, k) == src + k
    ensures src < dst && k >= dst - src ==> CopiedFrom(dst, src, k) == CopiedFrom(dst, src, k - (dst - src))
  {
    if src < dst && k >= dst - src { ModStep(k, dst - src); }
  }

  lemma ModStep(k: nat, gap: nat)
    requires 0 < gap <= k
    ensures (k - gap) % gap == k % gap
  {
    assert k == gap * (k / gap) + k % gap;
    var q := k / gap;
    assert k - gap == gap * (q - 1) + k % gap by { assert gap * (q - 1) == gap * q - gap; }
    Euclid(k - gap, gap, q - 1, k % gap);
  }

  lemma Euclid(n: nat, d: nat, q: int, r: nat)
    requires d > 0 && r < d && n == d * q + r
    ensures n % d == r
  {
    var q', r' := n / d, n % d;
    assert n == d * q' + r' && d * (q - q') == r' - r;
    assert d * (q' - q) == -(d * (q - q'));
    if q > q' { Scale(d, q - q'); }
    if q < q' { Scale(d, q' - q); }
  }

  lemma Scale(d: nat, n: nat)
    requires n >= 1
    ensures d * n >= d
  {
    assert d * n == d * (n - 1) + d;
  }

  /** kmemcpy: one byte at a time from the front, whatever the overlap. */
  method Kmemcpy(a: array<Byte>, dst: nat, src: nat, count: nat)
    requires count > 0 && dst + count <= a.Length && src + count <= a.Length
    modifies a
    ensures forall k :: 0 <= k < count ==> a[dst + k] == old(a[CopiedFrom(dst, src, k)])
    ensures forall b :: dst <= b < dst + count ==>
      a[b] == if src < dst <= src + (b - dst) then a[src + (b - dst)] else old(a[src + (b - dst)])
    ensures forall k :: 0 <= k < a.Length && !(dst <= k < dst + count) ==> a[k] == old(a[k])
  {
    hide CopiedFrom;
    var i := 0;
    var ecx := count;
    while true
      invariant 0 < ecx <= count && i == count - ecx
      invariant forall k :: 0 <= k < i ==> a[dst + k] == old(a[CopiedFrom(dst, src, k)])
      invariant forall k :: 0 <= k < a.Length && !(dst <= k < dst + i) ==> a[k] == old(a[k])
      decreases ecx
    {
      CopiedFromStep(dst, src, i);
      assert a[src + i] == old(a[CopiedFrom(dst, src, i)]) by {
        if src < dst && i >= dst - src {
          assert a[dst + (i - (dst - src))] == old(a[CopiedFrom(dst, src, i - (dst - src))]);
        }
      }
      a[dst + i] := a[src + i];
      i := i + 1;
      ecx := ecx - 1;
      if ecx == 0 { break; }
    }
    forall b | dst <= b < dst + count
      ensures a[b] == if src < dst <= src + (b - dst) then a[src + (b - dst)] else old(a[src + (b - dst)])
    {
      var k := b - dst;
      CopiedFromStep(dst, src, k);
      assert a[dst + k] == old(a[CopiedFrom(dst, src, k)]);
      if src < dst <= src + k {
        assert a[dst + (k - (dst - src))] == old(a[CopiedFrom(dst, src, k - (dst - src))]);
      }
    }
  }
}
