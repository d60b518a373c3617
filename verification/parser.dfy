/** The per-line work of `ReadRules` and `ReadRuletree`: prefix normalisation
    of the address and protocol dimensions, priority assignment in file order
    and selection by label.

    A line arrives already split into fields and converted to numbers: field 0
    and field 2 hold the values `GetIp` returned for the two addresses, the
    other fields the values `atoi`, `strtoul` and `stoi` returned.  The last
    field is the label. */
module RuleParser {
  import opened Bits
  import opened Results
  import opened RuleModel
  import opened PopCount

  /** Why a line cannot become a rule.  The source reads `vc[0] .. vc[9]`
      unchecked and shifts by `32 - prefix_len` unchecked; the model reports
      both cases instead. */
  datatype LineError = TooFewFields | PrefixLengthOutOfRange

  /** A line error together with the 0-based index of the offending line. */
  datatype ParseError = ParseError(line: nat, error: LineError)

  /** The line must hold at least the ten fields read by index. */
  const MinFields := 10

  /** `(1LL << (32 - len)) - 1` is defined for shift amounts 0 .. 62. */
  const MinIpPrefixLen := -30

  predicate ValidIpPrefixLen(len: int)
  {
    MinIpPrefixLen <= len <= 32
  }

  /** The number of address bits a prefix of length `len` leaves free. */
  function HostBits(len: int): nat
    requires len <= 32
  {
    if len <= 0 then 32 else 32 - len
  }

  /** `(1LL << (32 - len)) - 1` stored in a `uint32_t`. */
  function IpMask(len: int): U32
    requires ValidIpPrefixLen(len)
  {
    (Pow2(32 - len) - 1) % TwoTo32
  }

  /** The mask is the block of the `HostBits(len)` low bits; for a length of
      0 or below that is the whole word. */
  lemma IpMaskIsHostBits(len: int)
    requires ValidIpPrefixLen(len)
    ensures IpMask(len) == Pow2(HostBits(len)) - 1
  {
    Pow2Values();
    if len <= 0 {
      Pow2Add(32, -len);
      var p := Pow2(-len);
      assert Pow2(32 - len) - 1 == (p - 1) * TwoTo32 + (TwoTo32 - 1);
      DivModUnique(Pow2(32 - len) - 1, TwoTo32, p - 1, TwoTo32 - 1);
    } else {
      Pow2Monotone(32 - len, 32);
      DivModUnique(Pow2(32 - len) - 1, TwoTo32, 0, Pow2(32 - len) - 1);
    }
  }

  /** `low = x - (x & mask); high = low | mask`: `low` keeps the bits of `x`
      outside `mask` and clears those inside it, and `high` sets them. */
  function MaskRange(x: U32, mask: U32, len: int): (f: Field)
    ensures BitAnd(f.low, mask) == 0
    ensures f.low <= x <= f.high
    ensures BitAnd(x - f.low, mask) == x - f.low
    ensures f.high == f.low + mask
    ensures BitAnd(x, mask) == 0 ==> f.low == x
    ensures f.prefixLen == len
  {
    var low := x - BitAnd(x, mask);
    BitAndClears(x, mask);
    BitAndIdem(x, mask);
    BitOrDisjoint(low, mask);
    Pow2Values();
    BitOrBound(low, mask, 32);
    Field(low, BitOr(low, mask), len)
  }

  /** One address dimension: the address is cut down to the start of its
      prefix block and the upper bound is the end of that block. */
  function NormalizeIp(ip: U32, len: int): (f: Field)
    requires ValidIpPrefixLen(len)
    ensures f.prefixLen == len
    ensures f.low <= ip <= f.high
  {
    MaskRange(ip, IpMask(len), len)
  }

  /** The range `NormalizeIp` produces is the aligned block of
      `2^HostBits(len)` addresses that holds `ip`; an address that is already
      the start of its block is kept as the lower bound. */
  lemma NormalizeIpAligned(ip: U32, len: int)
    requires ValidIpPrefixLen(len)
    ensures var f := NormalizeIp(ip, len);
            && f.low % Pow2(HostBits(len)) == 0
            && f.low <= ip < f.low + Pow2(HostBits(len))
            && f.high == f.low + Pow2(HostBits(len)) - 1
            && (ip % Pow2(HostBits(len)) == 0 ==> f.low == ip)
  {
    var f := NormalizeIp(ip, len);
    IpMaskIsHostBits(len);
    BitAndLowMask(f.low, HostBits(len));
    BitAndLowMask(ip, HostBits(len));
  }

  /** The prefix block produced by `NormalizeIp` is exactly the set of
      addresses that share the top `32 - HostBits(len)` bits with the input. */
  lemma NormalizeIpBlock(ip: U32, len: int, x: nat)
    requires ValidIpPrefixLen(len)
    ensures var f := NormalizeIp(ip, len);
            f.low <= x <= f.high <==> x / Pow2(HostBits(len)) == ip / Pow2(HostBits(len))
  {
    var f := NormalizeIp(ip, len);
    var p := Pow2(HostBits(len));
    NormalizeIpAligned(ip, len);
    var q := f.low / p;
    assert f.low == q * p by {
      DivBounds(f.low, p);
    }
    assert ip / p == q by {
      DivModUnique(ip, p, q, ip - f.low);
    }
    if f.low <= x <= f.high {
      DivModUnique(x, p, q, x - f.low);
    } else if x / p == q {
      DivBounds(x, p);
      assert false;
    }
  }

  /** The protocol dimension: `value` and the don't-care complement of `care`
      are read with `strtoul` and stored in `uint32_t`; the bits outside `care`
      become free and the prefix length counts the bits of `care`. */
  function NormalizeProtocol(value: int, care: int): (f: Field)
    ensures f.prefixLen == Count1(care % TwoTo32)
    ensures f.low <= value % TwoTo32 <= f.high
    ensures f.high - f.low == (255 - care % TwoTo32) % TwoTo32
    ensures BitAnd(f.low, (255 - care % TwoTo32) % TwoTo32) == 0
    ensures BitAnd(value % TwoTo32 - f.low, (255 - care % TwoTo32) % TwoTo32) == value % TwoTo32 - f.low
  {
    var v: U32 := value % TwoTo32;
    var mask: U32 := (255 - care % TwoTo32) % TwoTo32;
    CareMaskRoundTrip(care);
    MaskRange(v, mask, Count1((255 - mask) % TwoTo32))
  }

  /** `255 - (255 - care)` in `uint32_t` arithmetic gives `care` back. */
  lemma CareMaskRoundTrip(care: int)
    ensures (255 - (255 - care % TwoTo32) % TwoTo32) % TwoTo32 == care % TwoTo32
  {
    var m := care % TwoTo32;
    if m <= 255 {
      DivModUnique(255 - m, TwoTo32, 0, 255 - m);
      DivModUnique(m, TwoTo32, 0, m);
    } else {
      DivModUnique(255 - m, TwoTo32, -1, TwoTo32 + 255 - m);
      DivModUnique(m - TwoTo32, TwoTo32, -1, m);
    }
  }

  /** For an 8-bit care mask the protocol prefix length and the free bits
      share out the eight bits of the protocol field. */
  lemma ProtocolBitsShareOut(value: int, care: nat)
    requires care <= 255
    ensures var f := NormalizeProtocol(value, care);
            f.prefixLen + Count1(f.high - f.low) == 8
  {
    var f := NormalizeProtocol(value, care);
    assert f.high - f.low == 255 - care by {
      DivModUnique(care, TwoTo32, 0, care);
      DivModUnique(255 - care, TwoTo32, 0, 255 - care);
    }
    assert f.prefixLen == Count1(care) by {
      DivModUnique(care, TwoTo32, 0, care);
    }
    Pow2Values();
    Count1Complement(care, 8);
  }

  /** Care mask `0xFF` fixes the protocol to one value. */
  lemma ProtocolExact(value: nat)
    requires value <= 255
    ensures NormalizeProtocol(value, 255) == Field(value, value, 8)
  {
    var f := NormalizeProtocol(value, 255);
    assert f.high - f.low == 0 by {
      DivModUnique(255, TwoTo32, 0, 255);
      DivModUnique(0, TwoTo32, 0, 0);
    }
    assert f.low == value by {
      DivModUnique(value, TwoTo32, 0, value);
    }
    assert f.prefixLen == 8 by {
      DivModUnique(255, TwoTo32, 0, 255);
      Pow2Values();
      Count1AllOnes(8);
    }
  }

  /** Care mask `0x00` leaves the whole block of 256 protocol values free. */
  lemma ProtocolWildcard(value: nat)
    requires value <= 255
    ensures NormalizeProtocol(value, 0) == Field(0, 255, 0)
  {
    assert value % TwoTo32 == value && (255 - 0 % TwoTo32) % TwoTo32 == 255 by {
      DivModUnique(value, TwoTo32, 0, value);
      DivModUnique(0, TwoTo32, 0, 0);
      DivModUnique(255, TwoTo32, 0, 255);
    }
    assert Count1((255 - 255) % TwoTo32) == 0;
    FullByteMask(value, 0);
  }

  /** A care mask whose free bits are the high nibble keeps the low nibble
      of the value and frees the rest. */
  lemma ProtocolPartialMask()
    ensures NormalizeProtocol(0x15, 0x0F) == Field(5, 245, 4)
  {
    assert 0x15 % TwoTo32 == 0x15 && 0x0F % TwoTo32 == 0x0F && 0xF0 % TwoTo32 == 0xF0 by {
      DivModUnique(0x15, TwoTo32, 0, 0x15);
      DivModUnique(0x0F, TwoTo32, 0, 0x0F);
      DivModUnique(0xF0, TwoTo32, 0, 0xF0);
    }
    assert BitAnd(0x15, 0xF0) == 0x10 by {
      assert BitAnd(1, 15) == 1;
      assert BitAnd(2, 30) == 2;
      assert BitAnd(5, 60) == 4;
      assert BitAnd(10, 120) == 8;
    }
    assert BitOr(5, 0xF0) == 245 by {
      assert BitAnd(5, 0xF0) == 0;
      BitOrDisjoint(5, 0xF0);
    }
    assert Count1(0x0F) == 4;
  }

  /** Masking a byte with `255` leaves the block `[0, 255]`. */
  lemma FullByteMask(x: U32, len: int)
    requires x <= 255
    ensures MaskRange(x, 255, len) == Field(0, 255, len)
  {
    assert BitAnd(x, 255) == x by {
      Pow2Values();
      BitAndLowMask(x, 8);
      DivModUnique(x, 256, 0, x);
    }
    assert BitOr(0, 255) == 255;
  }

  /** A line the source can read without running past the end of the field
      vector or shifting by an undefined amount. */
  predicate ReadableLine(tokens: seq<int>)
  {
    |tokens| >= MinFields && ValidIpPrefixLen(tokens[1]) && ValidIpPrefixLen(tokens[3])
  }

  /** One readable line becomes one rule: each address range is the aligned
      block of `2^HostBits(len)` addresses holding the address, ports are
      copied with prefix length 0, the protocol is normalised, and the rule
      gets the given priority and the last field as label. */
  function RuleOfLine(tokens: seq<int>, priority: int): (r: Rule)
    requires ReadableLine(tokens)
    ensures r.priority == priority && r.tag == tokens[|tokens| - 1]
    ensures r.srcIp.prefixLen == tokens[1] && r.srcIp.low <= tokens[0] % TwoTo32 <= r.srcIp.high
    ensures r.srcIp.low % Pow2(HostBits(tokens[1])) == 0
            && r.srcIp.high == r.srcIp.low + Pow2(HostBits(tokens[1])) - 1
    ensures r.dstIp.prefixLen == tokens[3] && r.dstIp.low <= tokens[2] % TwoTo32 <= r.dstIp.high
    ensures r.dstIp.low % Pow2(HostBits(tokens[3])) == 0
            && r.dstIp.high == r.dstIp.low + Pow2(HostBits(tokens[3])) - 1
    ensures r.srcPort == Field(tokens[4] % TwoTo32, tokens[5] % TwoTo32, 0)
    ensures r.dstPort == Field(tokens[6] % TwoTo32, tokens[7] % TwoTo32, 0)
    ensures r.proto == NormalizeProtocol(tokens[8], tokens[9])
    ensures r.proto.prefixLen == Count1(tokens[9] % TwoTo32)
    ensures r.proto.low <= tokens[8] % TwoTo32 <= r.proto.high
  {
    NormalizeIpAligned(tokens[0] % TwoTo32, tokens[1]);
    NormalizeIpAligned(tokens[2] % TwoTo32, tokens[3]);
    Rule(NormalizeIp(tokens[0] % TwoTo32, tokens[1]),
         NormalizeIp(tokens[2] % TwoTo32, tokens[3]),
         Field(tokens[4] % TwoTo32, tokens[5] % TwoTo32, 0),
         Field(tokens[6] % TwoTo32, tokens[7] % TwoTo32, 0),
         NormalizeProtocol(tokens[8], tokens[9]),
         priority,
         tokens[|tokens| - 1])
  }

  /** One line, readable or not. */
  function ParseRuleLine(tokens: seq<int>, priority: int): (r: Result<Rule, LineError>)
    ensures r.Ok? <==> ReadableLine(tokens)
    ensures |tokens| < MinFields ==> r == Err(TooFewFields)
    ensures |tokens| >= MinFields && !ReadableLine(tokens) ==> r == Err(PrefixLengthOutOfRange)
  {
    if |tokens| < MinFields then Err(TooFewFields)
    else if !ReadableLine(tokens) then Err(PrefixLengthOutOfRange)
    else Ok(RuleOfLine(tokens, priority))
  }

  /** The first line from index `i` on that cannot be read, if any. */
  function FirstUnreadable(lines: seq<seq<int>>, i: nat): (r: Option<nat>)
    requires i <= |lines|
    ensures r.Some? ==> i <= r.value < |lines| && !ReadableLine(lines[r.value])
    ensures r.Some? ==> forall k :: i <= k < r.value ==> ReadableLine(lines[k])
    ensures r.None? <==> forall k :: i <= k < |lines| ==> ReadableLine(lines[k])
    decreases |lines| - i
  {
    if i == |lines| then None
    else if !ReadableLine(lines[i]) then Some(i)
    else FirstUnreadable(lines, i + 1)
  }

  /** The lines of a file, in file order; line `k` gets priority
      `|lines| - k`, the count of lines read minus its index, so the first
      line of the file has the highest priority.  A line that cannot be read
      makes the whole file fail, reporting the first such line. */
  function ParseLines(lines: seq<seq<int>>): (r: Result<seq<Rule>, ParseError>)
    ensures r.Ok? <==> forall k :: 0 <= k < |lines| ==> ReadableLine(lines[k])
    ensures r.Ok? ==> |r.value| == |lines|
    ensures r.Ok? ==> forall k :: 0 <= k < |lines| ==>
              ReadableLine(lines[k]) && r.value[k] == RuleOfLine(lines[k], |lines| - k)
    ensures r.Err? ==>
              && r.error.line < |lines|
              && !ReadableLine(lines[r.error.line])
              && (r.error.error == TooFewFields <==> |lines[r.error.line]| < MinFields)
              && forall k :: 0 <= k < r.error.line ==> ReadableLine(lines[k])
  {
    match FirstUnreadable(lines, 0)
    case Some(n) =>
      Err(ParseError(n, if |lines[n]| < MinFields then TooFewFields else PrefixLengthOutOfRange))
    case None =>
      Ok(seq(|lines|, k requires 0 <= k < |lines| && ReadableLine(lines[k]) => RuleOfLine(lines[k], |lines| - k)))
  }

  /** Line `k` of the file gets priority `|lines| - k`: the priorities of a
      parsed file strictly decrease from the first line to the last. */
  lemma ParsedPriorities(lines: seq<seq<int>>)
    requires ParseLines(lines).Ok?
    ensures forall k :: 0 <= k < |lines| ==> ParseLines(lines).value[k].priority == |lines| - k
    ensures PrioritiesDecrease(ParseLines(lines).value)
  {
  }

  /** The rules of a file whose label satisfies `keep`, in file order. */
  function SelectByLabel(rules: seq<Rule>, keep: int -> bool): (r: seq<Rule>)
    ensures |r| <= |rules|
  {
    if rules == [] then []
    else if keep(rules[0].tag) then [rules[0]] + SelectByLabel(rules[1..], keep)
    else SelectByLabel(rules[1..], keep)
  }

  /** The selection holds exactly the rules of the file whose label passes. */
  lemma {:induction false} SelectMembers(rules: seq<Rule>, keep: int -> bool)
    ensures forall x :: x in SelectByLabel(rules, keep) <==> x in rules && keep(x.tag)
    decreases |rules|
  {
    if rules != [] {
      SelectMembers(rules[1..], keep);
      assert rules == [rules[0]] + rules[1..];
    }
  }

  /** A file whose priorities decrease gives a selection whose priorities
      decrease. */
  lemma {:induction false} SelectKeepsPriorityOrder(rules: seq<Rule>, keep: int -> bool)
    requires PrioritiesDecrease(rules)
    ensures PrioritiesDecrease(SelectByLabel(rules, keep))
    decreases |rules|
  {
    if rules != [] {
      var tail := rules[1..];
      assert PrioritiesDecrease(tail) by {
        assert forall i :: 0 <= i < |tail| ==> tail[i] == rules[i + 1];
      }
      SelectKeepsPriorityOrder(tail, keep);
      if keep(rules[0].tag) {
        var sel := SelectByLabel(tail, keep);
        SelectMembers(tail, keep);
        forall y | y in sel
          ensures rules[0].priority > y.priority
        {
          var i :| 0 <= i < |tail| && tail[i] == y;
          assert rules[i + 1] == y;
        }
        assert SelectByLabel(rules, keep) == [rules[0]] + sel;
      }
    }
  }

  /** Every rule occurs in the selection as often as in the file when its
      label passes, and not at all otherwise. */
  lemma {:induction false} SelectMultiplicity(rules: seq<Rule>, keep: int -> bool)
    ensures forall x :: multiset(SelectByLabel(rules, keep))[x] == if keep(x.tag) then multiset(rules)[x] else 0
    decreases |rules|
  {
    if rules != [] {
      SelectMultiplicity(rules[1..], keep);
      assert rules == [rules[0]] + rules[1..];
      assert multiset(rules) == multiset([rules[0]]) + multiset(rules[1..]);
    }
  }

  /** One step of the selection: the first rule, then the rest. */
  lemma SelectCons(x: Rule, s: seq<Rule>, keep: int -> bool)
    ensures SelectByLabel([x] + s, keep) == if keep(x.tag) then [x] + SelectByLabel(s, keep) else SelectByLabel(s, keep)
  {
    assert ([x] + s)[0] == x && ([x] + s)[1..] == s;
  }

  lemma ConsAssoc<T>(x: T, p: seq<T>, q: seq<T>)
    ensures [x] + (p + q) == [x] + p + q
  {
  }

  /** The step of `SelectConcat`: putting one rule in front of the first
      part keeps the two selections concatenated. */
  lemma SelectConcatStep(x: Rule, rest: seq<Rule>, b: seq<Rule>, keep: int -> bool)
    requires SelectByLabel(rest + b, keep) == SelectByLabel(rest, keep) + SelectByLabel(b, keep)
    ensures SelectByLabel([x] + (rest + b), keep) == SelectByLabel([x] + rest, keep) + SelectByLabel(b, keep)
  {
    SelectCons(x, rest + b, keep);
    SelectCons(x, rest, keep);
    if keep(x.tag) {
      ConsAssoc(x, SelectByLabel(rest, keep), SelectByLabel(b, keep));
    }
  }

  /** Selecting from two consecutive parts of a file is selecting from each
      part and concatenating: a selected rule keeps its place relative to
      every other selected rule. */
  lemma {:induction false} SelectConcat(a: seq<Rule>, b: seq<Rule>, keep: int -> bool)
    ensures SelectByLabel(a + b, keep) == SelectByLabel(a, keep) + SelectByLabel(b, keep)
    decreases |a|
  {
    if a == [] {
      assert a + b == b;
    } else {
      SelectConcat(a[1..], b, keep);
      SelectConcatStep(a[0], a[1..], b, keep);
      assert a == [a[0]] + a[1..];
      assert a + b == [a[0]] + (a[1..] + b);
    }
  }

  /** A single rule is selected exactly when its label passes. */
  lemma SelectOne(x: Rule, keep: int -> bool)
    ensures SelectByLabel([x], keep) == if keep(x.tag) then [x] else []
  {
    assert [x][1..] == [];
  }

  /** `ReadRules`: the rules whose label is not 0. */
  function ReadRules(lines: seq<seq<int>>): (r: Result<seq<Rule>, ParseError>)
    ensures r.Ok? <==> ParseLines(lines).Ok?
    ensures r.Err? ==> r.error == ParseLines(lines).error
    ensures r.Ok? ==> forall x :: x in r.value <==> x in ParseLines(lines).value && x.tag != 0
    ensures r.Ok? ==> PrioritiesDecrease(r.value)
  {
    match ParseLines(lines)
    case Err(e) => Err(e)
    case Ok(rules) =>
      ParsedPriorities(lines);
      SelectMembers(rules, l => l != 0);
      SelectKeepsPriorityOrder(rules, l => l != 0);
      Ok(SelectByLabel(rules, l => l != 0))
  }

  /** `ReadRuletree`: the rules whose label is 1. */
  function ReadRuletree(lines: seq<seq<int>>): (r: Result<seq<Rule>, ParseError>)
    ensures r.Ok? <==> ParseLines(lines).Ok?
    ensures r.Err? ==> r.error == ParseLines(lines).error
    ensures r.Ok? ==> forall x :: x in r.value <==> x in ParseLines(lines).value && x.tag == 1
    ensures r.Ok? ==> PrioritiesDecrease(r.value)
  {
    match ParseLines(lines)
    case Err(e) => Err(e)
    case Ok(rules) =>
      ParsedPriorities(lines);
      SelectMembers(rules, l => l == 1);
      SelectKeepsPriorityOrder(rules, l => l == 1);
      Ok(SelectByLabel(rules, l => l == 1))
  }

  /** Two label filters that agree on every label present select the same rules. */
  lemma {:induction false} SelectAgree(rules: seq<Rule>, keep1: int -> bool, keep2: int -> bool)
    requires forall k :: 0 <= k < |rules| ==> keep1(rules[k].tag) == keep2(rules[k].tag)
    ensures SelectByLabel(rules, keep1) == SelectByLabel(rules, keep2)
    decreases |rules|
  {
    if rules != [] {
      assert forall k :: 0 <= k < |rules[1..]| ==> rules[1..][k] == rules[k + 1];
      SelectAgree(rules[1..], keep1, keep2);
    }
  }

  /** When every label is 0 or 1, the two readers return the same rules: the
      rules of label 1, in file order. */
  lemma ReadersAgree(lines: seq<seq<int>>)
    requires ParseLines(lines).Ok?
    requires forall k :: 0 <= k < |lines| ==> lines[k][|lines[k]| - 1] in {0, 1}
    ensures ReadRules(lines) == ReadRuletree(lines)
  {
    var rules := ParseLines(lines).value;
    SelectAgree(rules, l => l != 0, l => l == 1);
  }
}
