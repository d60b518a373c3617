/** The byte-order helpers `htons`, `htonl`, `ntohs` and `ntohl`: reversing
    the bytes of a 16-bit or 32-bit value.  Host and network order are both
    treated as plain values, so each function is a pure byte swap. */
module ByteOrder {

  /** Byte `k` of a 32-bit value, counted from the least significant end. */
  function Byte32(x: bv32, k: nat): bv32
    requires k < 4
  {
    if k == 0 then x & 0xFF
    else if k == 1 then (x >> 8) & 0xFF
    else if k == 2 then (x >> 16) & 0xFF
    else x >> 24
  }

  /** `((hostshort & 255) << 8) | (hostshort >> 8)`. */
  function Htons(hostshort: bv16): bv16
  {
    ((hostshort & 255) << 8) | (hostshort >> 8)
  }

  /** `ntohs` has the same body as `htons`. */
  function Ntohs(netshort: bv16): bv16
  {
    ((netshort & 255) << 8) | (netshort >> 8)
  }

  /** `(htons(hostlong & 65535) << 16) | htons(hostlong >> 16)`: the swapped
      low half becomes the high half and the swapped high half the low half. */
  function Htonl(hostlong: bv32): bv32
  {
    var lo := Htons((hostlong & 65535) as bv16) as bv32;
    var hi := Htons((hostlong >> 16) as bv16) as bv32;
    (lo << 16) | hi
  }

  /** `ntohl` has the same body as `htonl`, built on `ntohs`. */
  function Ntohl(netlong: bv32): bv32
  {
    var lo := Ntohs((netlong & 65535) as bv16) as bv32;
    var hi := Ntohs((netlong >> 16) as bv16) as bv32;
    (lo << 16) | hi
  }

  /** `htons` and `ntohs` exchange the two bytes. */
  lemma Swap16Bytes(x: bv16)
    ensures Htons(x) & 0xFF == x >> 8 && Htons(x) >> 8 == x & 0xFF
    ensures Ntohs(x) & 0xFF == x >> 8 && Ntohs(x) >> 8 == x & 0xFF
  {
  }

  /** `htonl` reverses the four bytes. */
  lemma HtonlBytes(x: bv32)
    ensures Byte32(Htonl(x), 0) == Byte32(x, 3) && Byte32(Htonl(x), 1) == Byte32(x, 2)
    ensures Byte32(Htonl(x), 2) == Byte32(x, 1) && Byte32(Htonl(x), 3) == Byte32(x, 0)
  {
  }

  /** `ntohl` reverses the four bytes. */
  lemma NtohlBytes(x: bv32)
    ensures Byte32(Ntohl(x), 0) == Byte32(x, 3) && Byte32(Ntohl(x), 1) == Byte32(x, 2)
    ensures Byte32(Ntohl(x), 2) == Byte32(x, 1) && Byte32(Ntohl(x), 3) == Byte32(x, 0)
  {
  }

  /** A 32-bit value is determined by its four bytes. */
  lemma Bytes32Determine(x: bv32, y: bv32)
    requires forall k :: 0 <= k < 4 ==> Byte32(x, k) == Byte32(y, k)
    ensures x == y
  {
    assert Byte32(x, 0) == Byte32(y, 0) && Byte32(x, 1) == Byte32(y, 1);
    assert Byte32(x, 2) == Byte32(y, 2) && Byte32(x, 3) == Byte32(y, 3);
  }

  /** A 16-bit value is determined by its two bytes. */
  lemma Bytes16Determine(x: bv16, y: bv16)
    requires x & 0xFF == y & 0xFF && x >> 8 == y >> 8
    ensures x == y
  {
  }

  /** Converting to network order and back gives the value back. */
  lemma NtohsHtons(x: bv16)
    ensures Ntohs(Htons(x)) == x
  {
  }

  lemma NtohlHtonl(x: bv32)
    ensures Ntohl(Htonl(x)) == x
  {
    HtonlBytes(x);
    NtohlBytes(Htonl(x));
    Bytes32Determine(Ntohl(Htonl(x)), x);
  }

  /** Each 16-bit swap undoes itself, and the two directions are the same function. */
  lemma Swap16Involution(s: bv16)
    ensures Htons(Htons(s)) == s && Ntohs(Ntohs(s)) == s && Ntohs(s) == Htons(s)
  {
  }

  /** The 32-bit swap undoes itself. */
  lemma HtonlInvolution(l: bv32)
    ensures Htonl(Htonl(l)) == l
  {
    HtonlBytes(l);
    HtonlBytes(Htonl(l));
    Bytes32Determine(Htonl(Htonl(l)), l);
  }

  lemma NtohlInvolution(l: bv32)
    ensures Ntohl(Ntohl(l)) == l
  {
    NtohlBytes(l);
    NtohlBytes(Ntohl(l));
    Bytes32Determine(Ntohl(Ntohl(l)), l);
  }

  /** `ntohl` and `htonl` are the same function. */
  lemma NtohlIsHtonl(l: bv32)
    ensures Ntohl(l) == Htonl(l)
  {
    HtonlInvolution(l);
    NtohlHtonl(Htonl(l));
  }
}
