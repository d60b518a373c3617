/** `GetIp` and `GetIpStr`: an IPv4 address as four octets, as a `uint32_t`
    and as dotted-quad text. */
module IpAddr {
  import opened Bits
  import opened Results
  import opened StrSplit

  /** `(num1 << 24) | (num2 << 16) | (num3 << 8) | num4` in `uint32_t`
      arithmetic, for the four numbers `sscanf` read. */
  function GetIp(n1: U32, n2: U32, n3: U32, n4: U32): U32
  {
    Pow2Values();
    var x1 := BitOr(Shl32(n1, 24), Shl32(n2, 16));
    BitOrBound(Shl32(n1, 24), Shl32(n2, 16), 32);
    var x2 := BitOr(x1, Shl32(n3, 8));
    BitOrBound(x1, Shl32(n3, 8), 32);
    BitOrBound(x2, n4, 32);
    BitOr(x2, n4)
  }

  /** The four numbers `GetIpStr` prints: `ip >> 24`, `ip >> 16 & 255`,
      `ip >> 8 & 255` and `ip & 255`. */
  function Octets(ip: U32): seq<nat>
  {
    [Shr(ip, 24), BitAnd(Shr(ip, 16), 255), BitAnd(Shr(ip, 8), 255), BitAnd(ip, 255)]
  }

  function DigitChar(d: nat): char
    requires d < 10
  {
    "0123456789"[d]
  }

  predicate IsDigit(c: char)
  {
    '0' <= c <= '9'
  }

  /** `%d` of a non-negative number: its decimal digits, most significant first. */
  function Dec(n: nat): (s: string)
    ensures s != [] && forall k :: 0 <= k < |s| ==> IsDigit(s[k])
  {
    if n < 10 then [DigitChar(n)] else Dec(n / 10) + [DigitChar(n % 10)]
  }

  /** The value of a string of decimal digits. */
  function ParseDec(s: string): nat
    requires forall k :: 0 <= k < |s| ==> IsDigit(s[k])
  {
    if s == [] then 0
    else
      assert IsDigit(s[|s| - 1]);
      ParseDec(s[..|s| - 1]) * 10 + (s[|s| - 1] as int - '0' as int)
  }

  /** `sprintf("%d.%d.%d.%d", ...)` of the four octets. */
  function GetIpStr(ip: U32): string
  {
    var o := Octets(ip);
    Dec(o[0]) + "." + Dec(o[1]) + "." + Dec(o[2]) + "." + Dec(o[3])
  }

  /** Reading canonical dotted-quad text back: four runs of decimal digits
      separated by dots, each taken modulo `2^32` as `%u` stores it, packed
      by `GetIp`. This agrees with `sscanf("%u.%u.%u.%u")` on the text
      `GetIpStr` prints, which is all it is used for; on other text the two
      differ (empty fields are skipped here, and `sscanf` also accepts
      leading blanks, signs and trailing characters). */
  function ParseDottedQuad(s: string): Option<U32>
  {
    var ts := Split(s, ".");
    if |ts| == 4 && forall k :: 0 <= k < 4 ==> forall j :: 0 <= j < |ts[k]| ==> IsDigit(ts[k][j])
    then Some(GetIp(ParseDec(ts[0]) % TwoTo32, ParseDec(ts[1]) % TwoTo32,
                    ParseDec(ts[2]) % TwoTo32, ParseDec(ts[3]) % TwoTo32))
    else None
  }

  // ---------------------------------------------------------------------
  // Round trips
  // ---------------------------------------------------------------------

  /** With octet-sized inputs the shifted values occupy disjoint bytes, so
      `GetIp` is positional notation in base 256. */
  lemma GetIpValue(a: nat, b: nat, c: nat, d: nat)
    requires a < 256 && b < 256 && c < 256 && d < 256
    ensures GetIp(a, b, c, d) == a * 0x100_0000 + b * 0x1_0000 + c * 0x100 + d
  {
    Pow2Values();
    assert Pow2(8) == 256;
    assert Shl32(a, 24) == a * 0x100_0000 by {
      DivModUnique(a * 0x100_0000, TwoTo32, 0, a * 0x100_0000);
    }
    assert Shl32(b, 16) == b * 0x1_0000 by {
      DivModUnique(b * 0x1_0000, TwoTo32, 0, b * 0x1_0000);
    }
    assert Shl32(c, 8) == c * 0x100 by {
      DivModUnique(c * 0x100, TwoTo32, 0, c * 0x100);
    }
    var x1 := BitOr(a * 0x100_0000, b * 0x1_0000);
    assert x1 == a * 0x100_0000 + b * 0x1_0000 by {
      BitAndShifted(a, 24, b * 0x1_0000);
      BitOrDisjoint(a * 0x100_0000, b * 0x1_0000);
    }
    var x2 := BitOr(x1, c * 0x100);
    assert x2 == x1 + c * 0x100 by {
      assert x1 == (a * 0x100 + b) * Pow2(16);
      BitAndShifted(a * 0x100 + b, 16, c * 0x100);
      BitOrDisjoint(x1, c * 0x100);
    }
    assert BitOr(x2, d) == x2 + d by {
      assert x2 == (a * 0x1_0000 + b * 0x100 + c) * Pow2(8);
      BitAndShifted(a * 0x1_0000 + b * 0x100 + c, 8, d);
      BitOrDisjoint(x2, d);
    }
  }

  /** `x & 255` is the low byte of `x`. */
  lemma LowByte(x: nat)
    ensures BitAnd(x, 255) == x % 256
  {
    Pow2Values();
    BitAndLowMask(x, 8);
  }

  /** Printing the octets of the packed value gives the inputs back. */
  lemma OctetsOfGetIp(a: nat, b: nat, c: nat, d: nat)
    requires a < 256 && b < 256 && c < 256 && d < 256
    ensures Octets(GetIp(a, b, c, d)) == [a, b, c, d]
  {
    var ip := GetIp(a, b, c, d);
    GetIpValue(a, b, c, d);
    Pow2Values();
    assert Shr(ip, 24) == a by {
      DivModUnique(ip, 0x100_0000, a, b * 0x1_0000 + c * 0x100 + d);
    }
    assert BitAnd(Shr(ip, 16), 255) == b by {
      DivModUnique(ip, 0x1_0000, a * 0x100 + b, c * 0x100 + d);
      LowByte(a * 0x100 + b);
      DivModUnique(a * 0x100 + b, 256, a, b);
    }
    assert BitAnd(Shr(ip, 8), 255) == c by {
      DivModUnique(ip, 0x100, a * 0x1_0000 + b * 0x100 + c, d);
      LowByte(a * 0x1_0000 + b * 0x100 + c);
      DivModUnique(a * 0x1_0000 + b * 0x100 + c, 256, a * 0x100 + b, c);
    }
    assert BitAnd(ip, 255) == d by {
      LowByte(ip);
      DivModUnique(ip, 256, a * 0x1_0000 + b * 0x100 + c, d);
    }
  }

  /** Every address is the base-256 number of its octets, each below 256. */
  lemma OctetsDecompose(ip: U32)
    ensures forall k :: 0 <= k < 4 ==> Octets(ip)[k] < 256
    ensures ip == Octets(ip)[0] * 0x100_0000 + Octets(ip)[1] * 0x1_0000 + Octets(ip)[2] * 0x100 + Octets(ip)[3]
  {
    Pow2Values();
    var h := ip / 0x1_0000;
    var m := ip / 0x100;
    assert ip / 0x100_0000 == h / 256 by {
      DivDiv(ip, 0x1_0000, 256);
    }
    assert h == m / 256 by {
      DivDiv(ip, 0x100, 256);
    }
    LowByte(h);
    LowByte(m);
    LowByte(ip);
    assert ip / 0x100_0000 < 256 by {
      DivModUnique(ip, 0x100_0000, ip / 0x100_0000, ip % 0x100_0000);
    }
  }

  /** Packing the printed octets gives the address back. */
  lemma GetIpOfOctets(ip: U32)
    ensures GetIp(Octets(ip)[0], Octets(ip)[1], Octets(ip)[2], Octets(ip)[3]) == ip
  {
    OctetsDecompose(ip);
    var o := Octets(ip);
    GetIpValue(o[0], o[1], o[2], o[3]);
  }

  /** Reading back the last digit and the rest. */
  lemma {:induction false} ParseDecOfDec(n: nat)
    ensures ParseDec(Dec(n)) == n
    decreases n
  {
    if n >= 10 {
      var s := Dec(n);
      assert s[..|s| - 1] == Dec(n / 10);
      ParseDecOfDec(n / 10);
      assert "0123456789"[n % 10] as int - '0' as int == n % 10;
    } else {
      assert "0123456789"[n] as int - '0' as int == n;
    }
  }

  /** `GetIpStr` is four decimal fields joined with dots. */
  lemma GetIpStrIsJoin(ip: U32)
    ensures GetIpStr(ip) == Join([Dec(Octets(ip)[0]), Dec(Octets(ip)[1]), Dec(Octets(ip)[2]), Dec(Octets(ip)[3])], '.')
  {
    var o := Octets(ip);
    var a, b, c, d := Dec(o[0]), Dec(o[1]), Dec(o[2]), Dec(o[3]);
    var ts := [a, b, c, d];
    assert Join(ts[3..], '.') == d;
    assert ts[2..][1..] == ts[3..];
    assert Join(ts[2..], '.') == c + "." + d;
    assert ts[1..][1..] == ts[2..];
    assert Join(ts[1..], '.') == b + "." + (c + "." + d);
    assert Join(ts, '.') == a + "." + (b + "." + (c + "." + d));
  }

  /** The four fields of `GetIpStr` split apart again. */
  lemma SplitGetIpStr(ip: U32)
    ensures Split(GetIpStr(ip), ".") == [Dec(Octets(ip)[0]), Dec(Octets(ip)[1]), Dec(Octets(ip)[2]), Dec(Octets(ip)[3])]
  {
    var o := Octets(ip);
    var ts := [Dec(o[0]), Dec(o[1]), Dec(o[2]), Dec(o[3])];
    GetIpStrIsJoin(ip);
    forall k | 0 <= k < |ts|
      ensures ProperToken(ts[k], ".")
    {
      assert forall j :: 0 <= j < |ts[k]| ==> IsDigit(ts[k][j]);
    }
    SplitJoin(ts, '.', ".");
  }

  /** The text `GetIpStr` prints reads back as the same address. */
  lemma DottedQuadOfGetIpStr(ip: U32)
    ensures ParseDottedQuad(GetIpStr(ip)) == Some(ip)
  {
    var o := Octets(ip);
    var ts := Split(GetIpStr(ip), ".");
    SplitGetIpStr(ip);
    assert forall k :: 0 <= k < 4 ==> forall j :: 0 <= j < |ts[k]| ==> IsDigit(ts[k][j]);
    OctetsDecompose(ip);
    forall k | 0 <= k < 4
      ensures ParseDec(ts[k]) % TwoTo32 == o[k]
    {
      ParseDecOfDec(o[k]);
      DivModUnique(o[k], TwoTo32, 0, o[k]);
    }
    GetIpOfOctets(ip);
  }
}
