// The string hash of src/common/frame/utils.cpp against 64-bit FNV-1a.
module FnvHashes {
  const OFFSET: bv64 := 0xcbf29ce484222325

  // ----- the specification: draft-eastlake-fnv, section 2 -----

  function Times(h: bv64): bv64 {
    h * 0x100000001b3
  }

  function Mixed(h: bv64, b: bv8): bv64 {
    h ^ b as bv64
  }

  // Exclusive-or the octet, then multiply by the prime modulo 2^64.
  function Fnv1aFrom(h: bv64, bytes: seq<bv8>): bv64
    decreases |bytes|
  {
    if bytes == [] then h else Fnv1aFrom(Times(Mixed(h, bytes[0])), bytes[1..])
  }

  function Fnv1a(bytes: seq<bv8>): bv64 {
    Fnv1aFrom(OFFSET, bytes)
  }

  // ----- shifts and adds are the multiplication -----

  function Sum(a: bv64, b: bv64, c: bv64, d: bv64, e: bv64, f: bv64, g: bv64): bv64 {
    a + (b + c + d + e + f + g)
  }

  function ShiftAdds(h: bv64): bv64 {
    Sum(h, h << 1, h << 4, h << 5, h << 7, h << 8, h << 40)
  }

  lemma ShiftIsTimes(h: bv64)
    ensures h << 1 == h * 2 && h << 4 == h * 16 && h << 5 == h * 32
    ensures h << 7 == h * 128 && h << 8 == h * 256 && h << 40 == h * 0x10000000000
  {
  }

  lemma SumIsTimes(h: bv64)
    ensures Sum(h, h * 2, h * 16, h * 32, h * 128, h * 256, h * 0x10000000000) == Times(h)
  {
    assert h + (h * 2 + h * 16 + h * 32 + h * 128 + h * 256 + h * 0x10000000000) == h * 0x100000001b3;
  }

  lemma ShiftAddsMultiply(h: bv64)
    ensures ShiftAdds(h) == Times(h)
  {
    ShiftIsTimes(h);
    SumIsTimes(h);
  }

  lemma {:induction false} Fnv1aAppend(h: bv64, bytes: seq<bv8>, b: bv8)
    ensures Fnv1aFrom(h, bytes + [b]) == Times(Mixed(Fnv1aFrom(h, bytes), b))
    decreases |bytes|
  {
    if bytes == [] {
      assert Fnv1aFrom(Times(Mixed(h, b)), []) == Times(Mixed(h, b));
      assert (bytes + [b])[1..] == [];
    } else {
      assert (bytes + [b])[1..] == bytes[1..] + [b];
      Fnv1aAppend(Times(Mixed(h, bytes[0])), bytes[1..], b);
    }
  }

  method Fnv64aHash(buf: seq<bv8>) returns (hval: bv64)
    ensures hval == Fnv1a(buf)
  {
    hval := OFFSET;
    var bp := 0;
    while bp < |buf|
      invariant bp <= |buf|
      invariant hval == Fnv1a(buf[..bp])
    {
      Fnv1aAppend(OFFSET, buf[..bp], buf[bp]);
      assert buf[..bp + 1] == buf[..bp] + [buf[bp]];
      hval := Mixed(hval, buf[bp]);
      ShiftAddsMultiply(hval);
      hval := ShiftAdds(hval);
      bp := bp + 1;
    }
    assert buf[..bp] == buf;
  }

  // ----- every step is a bijection -----

  predicate Differ(g: bv64, h: bv64) {
    g != h
  }

  // The prime is odd.
  lemma ProductsDiffer(g: bv64, h: bv64)
    requires g != h
    ensures Differ(g * 0x100000001b3, h * 0x100000001b3)
  {
  }

  lemma TimesInjective(g: bv64, h: bv64)
    requires g != h
    ensures Times(g) != Times(h)
  {
    ProductsDiffer(g, h);
    assert Differ(Times(g), Times(h));
  }

  lemma MixedInjective(g: bv64, h: bv64, a: bv8, b: bv8)
    ensures Mixed(g, a) == Mixed(h, a) <==> g == h
    ensures Mixed(h, a) == Mixed(h, b) <==> a == b
  {
  }

  // A difference in the state survives any bytes that follow.
  lemma {:induction false} StateInjective(g: bv64, h: bv64, bytes: seq<bv8>)
    requires g != h
    ensures Fnv1aFrom(g, bytes) != Fnv1aFrom(h, bytes)
    decreases |bytes|
  {
    if bytes != [] {
      MixedInjective(g, h, bytes[0], bytes[0]);
      TimesInjective(Mixed(g, bytes[0]), Mixed(h, bytes[0]));
      StateInjective(Times(Mixed(g, bytes[0])), Times(Mixed(h, bytes[0])), bytes[1..]);
    }
  }

  lemma {:induction false} OneByteFrom(h: bv64, x: seq<bv8>, y: seq<bv8>, k: nat)
    requires |x| == |y| && k < |x| && x[k] != y[k]
    requires x[..k] == y[..k] && x[k + 1..] == y[k + 1..]
    ensures Fnv1aFrom(h, x) != Fnv1aFrom(h, y)
    decreases k
  {
    if k == 0 {
      MixedInjective(h, h, x[0], y[0]);
      TimesInjective(Mixed(h, x[0]), Mixed(h, y[0]));
      StateInjective(Times(Mixed(h, x[0])), Times(Mixed(h, y[0])), x[1..]);
    } else {
      assert x[0] == x[..k][0] == y[..k][0] == y[0];
      assert x[1..][..k - 1] == x[..k][1..] == y[..k][1..] == y[1..][..k - 1];
      assert x[1..][k..] == x[k + 1..] == y[1..][k..];
      OneByteFrom(Times(Mixed(h, x[0])), x[1..], y[1..], k - 1);
    }
  }

  // Inputs of one length that differ in exactly one byte never collide.
  lemma OneByteChangesHash(x: seq<bv8>, y: seq<bv8>, k: nat)
    requires |x| == |y| && k < |x|
    requires x[..k] == y[..k] && x[k + 1..] == y[k + 1..]
    ensures Fnv1a(x) == Fnv1a(y) <==> x == y
  {
    if x[k] == y[k] {
      assert x == x[..k] + [x[k]] + x[k + 1..] == y;
    } else {
      OneByteFrom(OFFSET, x, y, k);
    }
  }
}
