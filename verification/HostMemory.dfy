/** Host memory as bytes, and the 64-bit little-endian words that the guest stack holds. */
module HostMemory {
  type Byte = b: int | 0 <= b < 0x100

  /** A byte that is not listed is zero. */
  type Memory = map<nat, Byte>

  function At(mem: Memory, a: nat): Byte { if a in mem then mem[a] else 0 }

  predicate Within(a: nat, n: nat, x: nat) { a <= x < a + n }

  function Put(mem: Memory, a: nat, bs: seq<Byte>): Memory {
    mem + map x: nat | x < a + |bs| && Within(a, |bs|, x) :: bs[x - a]
  }

  function Get(mem: Memory, a: nat, n: nat): (bs: seq<Byte>)
    ensures |bs| == n && forall i | 0 <= i < n :: bs[i] == At(mem, a + i)
  {
    seq<Byte>(n, i requires 0 <= i < n => At(mem, a + i))
  }

  lemma PutAt(mem: Memory, a: nat, bs: seq<Byte>, x: nat)
    ensures At(Put(mem, a, bs), x) == if Within(a, |bs|, x) then bs[x - a] else At(mem, x)
  {
  }

  // ----- words

  const WORDS: nat := 0x1_0000_0000_0000_0000

  function Pow256(n: nat): nat { if n == 0 then 1 else 0x100 * Pow256(n - 1) }

  function Bytes(v: nat, n: nat): (bs: seq<Byte>)
    ensures |bs| == n
  {
    if n == 0 then [] else [v % 0x100] + Bytes(v / 0x100, n - 1)
  }

  function Value(bs: seq<Byte>): nat { if bs == [] then 0 else bs[0] + 0x100 * Value(bs[1..]) }

  lemma {:induction false} BytesRoundTrip(v: nat, n: nat)
    requires v < Pow256(n)
    ensures Value(Bytes(v, n)) == v
  {
    if n > 0 {
      BytesRoundTrip(v / 0x100, n - 1);
      assert Bytes(v, n)[1..] == Bytes(v / 0x100, n - 1);
    }
  }

  /** The low byte comes first. */
  lemma {:induction false} LittleEndian(v: nat, n: nat, i: nat)
    requires i < n
    ensures Pow256(i) > 0 && Bytes(v, n)[i] == v / Pow256(i) % 0x100
  {
    if i > 0 {
      LittleEndian(v / 0x100, n - 1, i - 1);
      DivDiv(v, Pow256(i - 1));
    }
  }

  lemma DivDiv(v: nat, p: nat)
    requires p > 0
    ensures v / 0x100 / p == v / (0x100 * p)
  {
    var q, r := v / (0x100 * p), v % (0x100 * p);
    assert v == 0x100 * (q * p) + r;
    assert v / 0x100 == q * p + r / 0x100;
    assert r / 0x100 < p;
    DivOf(v / 0x100, p, q, r / 0x100);
  }

  lemma DivOf(x: nat, p: nat, q: nat, r: nat)
    requires x == q * p + r && r < p
    ensures x / p == q
  {
    assert x == x / p * p + x % p;
    NotLess(p, q, r, x / p, x % p);
    NotLess(p, x / p, x % p, q, r);
  }

  lemma NotLess(p: nat, q: nat, r: nat, q': nat, r': nat)
    requires q * p + r == q' * p + r' && r < p
    ensures q' <= q
  {
    if q + 1 <= q' {
      MulMono(q + 1, q', p);
    }
  }

  lemma MulMono(a: nat, b: nat, p: nat)
    requires a <= b
    ensures a * p <= b * p
  {
  }

  lemma Pow256Word()
    ensures Pow256(8) == WORDS
  {
    assert Pow256(4) == 0x1_0000_0000;
  }

  /** The word at a. */
  function Fetch(mem: Memory, a: nat): nat { Value(Get(mem, a, 8)) }

  function Store(mem: Memory, a: nat, v: nat): Memory { Put(mem, a, Bytes(v, 8)) }

  /** Byte i of memory at a holds the bits 8 * i and up of the word stored there. */
  lemma StoredByte(mem: Memory, a: nat, v: nat, i: nat)
    requires i < 8
    ensures Pow256(i) > 0 && At(Store(mem, a, v), a + i) == v / Pow256(i) % 0x100
  {
    PutAt(mem, a, Bytes(v, 8), a + i);
    LittleEndian(v, 8, i);
  }

  /** Storing a word makes it readable at its address and nowhere else. */
  lemma StoreFetch(mem: Memory, a: nat, v: nat, b: nat)
    requires v < WORDS && (b == a || b + 8 <= a || a + 8 <= b)
    ensures Fetch(Store(mem, a, v), b) == if b == a then v else Fetch(mem, b)
  {
    hide Put, Bytes, Value;
    var mem' := Store(mem, a, v);
    forall x: nat ensures At(mem', x) == if Within(a, 8, x) then Bytes(v, 8)[x - a] else At(mem, x) {
      PutAt(mem, a, Bytes(v, 8), x);
    }
    if b == a {
      assert Get(mem', a, 8) == Bytes(v, 8);
      Pow256Word();
      BytesRoundTrip(v, 8);
    } else {
      assert Get(mem', b, 8) == Get(mem, b, 8);
    }
  }

  // ----- strings

  /** A NUL-terminated string lies at p. */
  ghost predicate StringAt(mem: Memory, p: nat, str: seq<Byte>) {
    (forall i | 0 <= i < |str| :: At(mem, p + i) == str[i]) && At(mem, p + |str|) == 0
  }

  /** Memory that agrees on the bytes of a string still holds it. */
  lemma StringStays(mem: Memory, mem': Memory, p: nat, str: seq<Byte>)
    requires StringAt(mem, p, str) && forall x: nat | p <= x <= p + |str| :: At(mem', x) == At(mem, x)
    ensures StringAt(mem', p, str)
  {
    forall i | 0 <= i < |str| ensures At(mem', p + i) == str[i] {
      assert At(mem', p + i) == At(mem, p + i);
    }
  }

  /** Host memory as it is written in place. */
  class Ram {
    var bytes: Memory

    constructor (bytes: Memory)
      ensures this.bytes == bytes
    {
      this.bytes := bytes;
    }

    method StoreWord(a: nat, v: nat)
      modifies this
      ensures bytes == Store(old(bytes), a, v)
    {
      bytes := Put(bytes, a, Bytes(v, 8));
    }

    method FetchWord(a: nat) returns (v: nat)
      ensures v == Fetch(bytes, a)
    {
      v := Value(Get(bytes, a, 8));
    }

    method Copy(a: nat, bs: seq<Byte>)
      modifies this
      ensures bytes == Put(old(bytes), a, bs)
    {
      bytes := Put(bytes, a, bs);
    }
  }
}
