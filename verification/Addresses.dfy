/** Server addresses: node ids in, 32-bit IPv4 addresses out, and back. */
module Addresses {
  import opened Words

  function NodeIdToIp(id: nat): nat {
    (0x0b000001 + (id / 256) * 0x00010000 % WORD32 + (id % 256) * 0x00000100) % WORD32
  }

  function IpToNodeId(ip: nat): nat {
    (ip / 256) % 0x10000
  }

  /** The address is 11.0.0.1 with the low 24 bits of the id placed above the last octet. */
  lemma AddressOf(id: nat)
    requires id < WORD32
    ensures NodeIdToIp(id) == ((0xb0000 + id) % 0x100_0000) * 256 + 1
  {
    var hi, lo := id / 256, id % 256;
    var k := hi * 0x10000 / WORD32;
    var t := 0xb0000 + id;
    var q, r := t / 0x100_0000, t % 0x100_0000;
    var e := 0x0b000001 + hi * 0x10000 % WORD32 + lo * 0x100;
    assert hi * 0x10000 + lo * 0x100 == id * 256;
    assert e == (q - k) * WORD32 + (r * 256 + 1);
    Remainder(e, q - k, r * 256 + 1);
  }

  lemma Remainder(e: nat, q: int, r: nat)
    requires e == q * WORD32 + r && r < WORD32
    ensures e % WORD32 == r
  {
  }

  /** Reading an id back from its address yields its low 16 bits, for every 32-bit id. */
  lemma RoundTrip(id: nat)
    requires id < WORD32
    ensures IpToNodeId(NodeIdToIp(id)) == id % 0x10000
  {
    AddressOf(id);
    var t := 0xb0000 + id;
    var q, r := t / 0x100_0000, t % 0x100_0000;
    assert (r * 256 + 1) / 256 == r;
    assert r == 0xb0000 + id - q * 0x100_0000;
    assert r % 0x10000 == id % 0x10000 by {
      var k := id / 0x10000;
      assert r == (11 + k - q * 256) * 0x10000 + id % 0x10000;
    }
  }

  lemma Shifted(id: nat)
    ensures (0xb0000 + id) % 0x100_0000 ==
              if id % 0x100_0000 < 0xf5_0000 then 0xb0000 + id % 0x100_0000 else id % 0x100_0000 - 0xf5_0000
  {
    var q, r := id / 0x100_0000, id % 0x100_0000;
    assert 0xb0000 + id == q * 0x100_0000 + (0xb0000 + r);
  }

  /** Two ids share an address exactly when they agree in their low 24 bits. */
  lemma SameAddress(a: nat, b: nat)
    requires a < WORD32 && b < WORD32
    ensures NodeIdToIp(a) == NodeIdToIp(b) <==> a % 0x100_0000 == b % 0x100_0000
  {
    AddressOf(a);
    AddressOf(b);
    Shifted(a);
    Shifted(b);
  }
}
