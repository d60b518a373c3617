/** MegaFlow synthesis: one rule per observed trace, each of its four
    address and port fields being the trace's value cut down to the prefix
    length a longest-prefix lookup found for it; the candidates are
    deduplicated by whole-rule equality and then checked pairwise for
    overlapping prefix blocks.

    The four tries of the source are not part of this model: the lookup is
    the parameter `lpm`, where `lpm(d, x)` is the matched length for key `x`
    in dimension `d`.  Lengths live in a 32-bit lookup space; ports are
    inserted with their prefix length plus 16, so a port field stores the
    matched length minus 16. */
module MegaFlow {
  import opened Bits
  import opened RuleModel
  import opened Dedup
  import PortMask

  /** A prefix length in the 32-bit lookup space. */
  type PrefixLen = l: int | 0 <= l <= 32

  /** `x >> (32 - len) << (32 - len)` on a `uint32_t`: the bits below the
      top `len` cleared.  For `len == 0` the C shift by 32 is undefined;
      here it is the mathematical shift, so the field becomes 0. */
  function Mask(x: U32, len: PrefixLen): U32
  {
    Shl32(Shr(x, 32 - len), 32 - len)
  }

  /** What a port field adds to its stored prefix length to reach the
      lookup space: 16 for dimensions 2 and 3, 0 for the addresses. */
  function Offset(k: nat): int
  {
    if k == 2 || k == 3 then 16 else 0
  }

  /** The prefix length of dimension `k` of `r` in the lookup space. */
  function BlockLen(r: Rule, k: nat): int
    requires k < 4
  {
    r.Dim(k).prefixLen + Offset(k)
  }

  /** Every one of the four looked-up dimensions has a length the shifts
      of `CheckMegaFlowRules` are defined for. */
  predicate LengthsInRange(r: Rule)
  {
    forall k :: 0 <= k < 4 ==> 0 <= BlockLen(r, k) <= 32
  }

  /** The low end of every looked-up dimension is a multiple of its block
      size. */
  predicate Aligned(r: Rule)
    requires LengthsInRange(r)
  {
    forall k :: 0 <= k < 4 ==> r.Dim(k).low % Pow2(32 - BlockLen(r, k)) == 0
  }

  /** The candidate rule for one trace: `rule_empty` with the four looked-up
      fields filled in. */
  function Synthesize(t: Trace, lpm: (nat, U32) -> PrefixLen): Rule
  {
    var l0, l1, l2, l3 := lpm(0, t.srcIp), lpm(1, t.dstIp), lpm(2, t.srcPort), lpm(3, t.dstPort);
    EmptyRule.(srcIp := Field(Mask(t.srcIp, l0), 0, l0),
               dstIp := Field(Mask(t.dstIp, l1), 0, l1),
               srcPort := Field(Mask(t.srcPort, l2), 0, l2 - 16),
               dstPort := Field(Mask(t.dstPort, l3), 0, l3 - 16))
  }

  /** The candidates of all traces, in trace order. */
  function Candidates(traces: seq<Trace>, lpm: (nat, U32) -> PrefixLen): seq<Rule>
  {
    seq(|traces|, i requires 0 <= i < |traces| => Synthesize(traces[i], lpm))
  }

  /** Candidates are compared as whole records. */
  function Whole(r: Rule): Rule
  {
    r
  }

  /** The synthesis loop of `MegaFlowRules`: a candidate is appended the
      first time it is seen; `seen` stands for the `map<Rule, int>`. */
  method MegaFlowRules(traces: seq<Trace>, lpm: (nat, U32) -> PrefixLen) returns (out: seq<Rule>)
    ensures out == KeepFirst(Candidates(traces, lpm), Whole)
  {
    out := [];
    var seen: set<Rule> := {};
    for i := 0 to |traces|
      invariant out == KeepFirst(Candidates(traces[..i], lpm), Whole)
      invariant seen == Keys(Candidates(traces[..i], lpm), Whole)
    {
      var rule := Synthesize(traces[i], lpm);
      var before, after := Candidates(traces[..i], lpm), Candidates(traces[..i + 1], lpm);
      assert after == before + [rule];
      KeysSnoc(before, rule, Whole);
      KeepFirstSnoc(after, Whole);
      assert after[..|after| - 1] == before;
      if rule !in seen {
        seen := seen + {rule};
        out := out + [rule];
      }
    }
    assert traces[..|traces|] == traces;
  }

  // ---------------------------------------------------------------------
  // The shape of a synthesized rule
  // ---------------------------------------------------------------------

  /** `Mask(x, len)` is the multiple of `2^(32-len)` whose block holds `x`. */
  lemma MaskBlock(x: U32, len: PrefixLen)
    ensures Mask(x, len) % Pow2(32 - len) == 0
    ensures Mask(x, len) <= x < Mask(x, len) + Pow2(32 - len)
  {
    var p := Pow2(32 - len);
    FloorToMultiple(x, p);
    var y := x / p * p;
    assert Shr(x, 32 - len) * p == y;
    DivModUnique(y, TwoTo32, 0, y);
  }

  /** The block condition determines the masked value. */
  lemma MaskUnique(x: U32, len: PrefixLen, m: int)
    requires 0 <= m && m % Pow2(32 - len) == 0 && m <= x < m + Pow2(32 - len)
    ensures m == Mask(x, len)
  {
    var p := Pow2(32 - len);
    DivModUnique(x, p, m / p, x - m);
    DivBounds(m, p);
    MaskBlock(x, len);
    FloorToMultiple(x, p);
  }

  /** Each candidate keeps its trace inside the prefix block of every
      looked-up dimension, with the block aligned to its size; it stores the
      matched length (minus 16 for ports) and leaves the upper ends, the
      protocol, the priority and the label at the empty default. */
  lemma SynthesizeShape(t: Trace, lpm: (nat, U32) -> PrefixLen)
    ensures var r := Synthesize(t, lpm);
            && r.proto == EmptyField && r.priority == 0 && r.tag == 0
            && LengthsInRange(r) && Aligned(r)
            && forall k :: 0 <= k < 4 ==>
                 && BlockLen(r, k) == lpm(k, t.Key(k))
                 && r.Dim(k).high == 0
                 && r.Dim(k).low <= t.Key(k) < r.Dim(k).low + Pow2(32 - BlockLen(r, k))
  {
    var r := Synthesize(t, lpm);
    forall k | 0 <= k < 4
      ensures BlockLen(r, k) == lpm(k, t.Key(k)) && r.Dim(k).low == Mask(t.Key(k), lpm(k, t.Key(k)))
    {
    }
    forall k | 0 <= k < 4
      ensures r.Dim(k).low % Pow2(32 - BlockLen(r, k)) == 0
      ensures r.Dim(k).low <= t.Key(k) < r.Dim(k).low + Pow2(32 - BlockLen(r, k))
    {
      MaskBlock(t.Key(k), lpm(k, t.Key(k)));
    }
  }

  /** Two traces give the same candidate exactly when every lookup returns
      the same length for both and their keys agree above that length. */
  lemma SameCandidate(t1: Trace, t2: Trace, lpm: (nat, U32) -> PrefixLen)
    ensures Synthesize(t1, lpm) == Synthesize(t2, lpm) <==>
            forall k :: 0 <= k < 4 ==>
              && lpm(k, t1.Key(k)) == lpm(k, t2.Key(k))
              && Shr(t1.Key(k), 32 - lpm(k, t1.Key(k))) == Shr(t2.Key(k), 32 - lpm(k, t1.Key(k)))
  {
    var r1, r2 := Synthesize(t1, lpm), Synthesize(t2, lpm);
    forall k | 0 <= k < 4
      ensures r1.Dim(k) == r2.Dim(k) <==>
                && lpm(k, t1.Key(k)) == lpm(k, t2.Key(k))
                && Shr(t1.Key(k), 32 - lpm(k, t1.Key(k))) == Shr(t2.Key(k), 32 - lpm(k, t1.Key(k)))
    {
      var l1, l2 := lpm(k, t1.Key(k)), lpm(k, t2.Key(k));
      assert r1.Dim(k) == Field(Mask(t1.Key(k), l1), 0, l1 - Offset(k));
      assert r2.Dim(k) == Field(Mask(t2.Key(k), l2), 0, l2 - Offset(k));
      if l1 == l2 {
        MaskSameTop(t1.Key(k), t2.Key(k), l1);
      }
    }
    if r1 != r2 {
      assert r1.srcIp != r2.srcIp || r1.dstIp != r2.dstIp || r1.srcPort != r2.srcPort || r1.dstPort != r2.dstPort;
      assert r1.Dim(0) != r2.Dim(0) || r1.Dim(1) != r2.Dim(1) || r1.Dim(2) != r2.Dim(2) || r1.Dim(3) != r2.Dim(3);
    } else {
      assert forall k :: 0 <= k < 4 ==> r1.Dim(k) == r2.Dim(k);
    }
  }

  /** Masking to the same length agrees exactly when the top bits agree. */
  lemma MaskSameTop(x: U32, y: U32, len: PrefixLen)
    ensures Mask(x, len) == Mask(y, len) <==> Shr(x, 32 - len) == Shr(y, 32 - len)
  {
    var p := Pow2(32 - len);
    MaskBlock(x, len);
    MaskBlock(y, len);
    FloorToMultiple(x, p);
    FloorToMultiple(y, p);
    MaskUnique(x, len, x / p * p);
    MaskUnique(y, len, y / p * p);
    if Mask(x, len) == Mask(y, len) {
      assert x / p * p == y / p * p;
      PortMask.MulCancel(x / p, y / p, p);
    }
  }

  // ---------------------------------------------------------------------
  // The list MegaFlowRules emits
  // ---------------------------------------------------------------------

  /** The emitted rules are pairwise different, every trace's candidate is
      among them, and each is the candidate of the first trace that
      produced it. */
  lemma MegaFlowRulesProperties(traces: seq<Trace>, lpm: (nat, U32) -> PrefixLen)
    ensures var out := KeepFirst(Candidates(traces, lpm), Whole);
            && (forall i, j :: 0 <= i < j < |out| ==> out[i] != out[j])
            && (forall i :: 0 <= i < |traces| ==> Synthesize(traces[i], lpm) in out)
            && (forall r :: r in out ==> exists i :: FirstOfKey(Candidates(traces, lpm), Whole, i)
                                                && Synthesize(traces[i], lpm) == r)
  {
    var cs := Candidates(traces, lpm);
    var out := KeepFirst(cs, Whole);
    KeepFirstDistinct(cs, Whole);
    assert forall i, j :: 0 <= i < j < |out| ==> Whole(out[i]) != Whole(out[j]);
    KeepFirstKeys(cs, Whole);
    forall i | 0 <= i < |traces|
      ensures Synthesize(traces[i], lpm) in out
    {
      assert Whole(cs[i]) in Keys(cs, Whole);
      var y :| y in out && Whole(y) == Whole(cs[i]);
    }
    KeepFirstOnlyFirsts(cs, Whole);
  }

  /** Every emitted rule has its prefix blocks aligned to their sizes. */
  lemma MegaFlowRulesAligned(traces: seq<Trace>, lpm: (nat, U32) -> PrefixLen)
    ensures forall r :: r in KeepFirst(Candidates(traces, lpm), Whole) ==> LengthsInRange(r) && Aligned(r)
  {
    var cs := Candidates(traces, lpm);
    KeepFirstOnlyFirsts(cs, Whole);
    forall r | r in KeepFirst(cs, Whole)
      ensures LengthsInRange(r) && Aligned(r)
    {
      var i :| FirstOfKey(cs, Whole, i) && cs[i] == r;
      SynthesizeShape(traces[i], lpm);
    }
  }

  /** Every trace lies inside the blocks of its own candidate, which is
      one of the emitted rules. */
  lemma MegaFlowRulesCover(traces: seq<Trace>, lpm: (nat, U32) -> PrefixLen)
    ensures forall i :: 0 <= i < |traces| ==>
              && Synthesize(traces[i], lpm) in KeepFirst(Candidates(traces, lpm), Whole)
              && Covers(Synthesize(traces[i], lpm), traces[i])
  {
    forall i | 0 <= i < |traces|
      ensures Synthesize(traces[i], lpm) in KeepFirst(Candidates(traces, lpm), Whole)
      ensures Covers(Synthesize(traces[i], lpm), traces[i])
    {
      CandidateKept(traces, lpm, i);
      SynthesizeShape(traces[i], lpm);
    }
  }

  /** The candidate of trace `i` is emitted. */
  lemma CandidateKept(traces: seq<Trace>, lpm: (nat, U32) -> PrefixLen, i: nat)
    requires i < |traces|
    ensures Candidates(traces, lpm)[i] in KeepFirst(Candidates(traces, lpm), Whole)
  {
    var cs := Candidates(traces, lpm);
    KeepFirstKeys(cs, Whole);
    assert Whole(cs[i]) in Keys(cs, Whole);
    var y :| y in KeepFirst(cs, Whole) && Whole(y) == Whole(cs[i]);
  }

  /** The trace lies in the prefix block of each looked-up dimension. */
  predicate Covers(r: Rule, t: Trace)
  {
    && LengthsInRange(r)
    && forall k :: 0 <= k < 4 ==> r.Dim(k).low <= t.Key(k) < r.Dim(k).low + Pow2(32 - BlockLen(r, k))
  }

  // ---------------------------------------------------------------------
  // CheckMegaFlowRules
  // ---------------------------------------------------------------------

  /** The test of dimension `k`: both low ends shifted right by 32 minus the
      smaller of the two lengths. */
  predicate SameTop(a: Rule, b: Rule, k: nat)
    requires k < 4 && LengthsInRange(a) && LengthsInRange(b)
  {
    var m := if BlockLen(a, k) <= BlockLen(b, k) then BlockLen(a, k) else BlockLen(b, k);
    Shr(a.Dim(k).low, 32 - m) == Shr(b.Dim(k).low, 32 - m)
  }

  /** The `contain` flag of `CheckMegaFlowRules` for one pair. */
  predicate Contain(a: Rule, b: Rule)
    requires LengthsInRange(a) && LengthsInRange(b)
  {
    forall k :: 0 <= k < 4 ==> SameTop(a, b, k)
  }

  /** The loop over the four dimensions: `contain` starts true and is
      cleared by any dimension whose top bits differ. */
  method ContainFlag(a: Rule, b: Rule) returns (contain: bool)
    requires LengthsInRange(a) && LengthsInRange(b)
    ensures contain <==> Contain(a, b)
  {
    contain := true;
    for k := 0 to 4
      invariant contain <==> forall k' :: 0 <= k' < k ==> SameTop(a, b, k')
    {
      var la, lb := BlockLen(a, k), BlockLen(b, k);
      var m := if la <= lb then la else lb;
      var same := Shr(a.Dim(k).low, 32 - m) == Shr(b.Dim(k).low, 32 - m);
      assert same <==> SameTop(a, b, k);
      if !same {
        contain := false;
      }
      assert (forall k' :: 0 <= k' < k + 1 ==> SameTop(a, b, k'))
             <==> (forall k' :: 0 <= k' < k ==> SameTop(a, b, k')) && SameTop(a, b, k);
    }
  }

  /** `(i, j)` is reported before `(i', j')`. */
  predicate Before(p: (nat, nat), q: (nat, nat))
  {
    p.0 < q.0 || (p.0 == q.0 && p.1 < q.1)
  }

  /** The pairs `CheckMegaFlowRules` prints as `contain i j`, in printing
      order: every `i < j` whose rules pass the test, and no other pair. */
  method CheckMegaFlowRules(rules: seq<Rule>) returns (pairs: seq<(nat, nat)>)
    requires forall i :: 0 <= i < |rules| ==> LengthsInRange(rules[i])
    ensures forall p :: p in pairs ==> p.0 < p.1 < |rules| && Contain(rules[p.0], rules[p.1])
    ensures forall i, j :: 0 <= i < j < |rules| && Contain(rules[i], rules[j]) ==> (i, j) in pairs
    ensures forall a, b :: 0 <= a < b < |pairs| ==> Before(pairs[a], pairs[b])
  {
    pairs := [];
    for i := 0 to |rules|
      invariant forall p :: p in pairs ==> p.0 < p.1 < |rules| && p.0 < i && Contain(rules[p.0], rules[p.1])
      invariant forall i', j :: 0 <= i' < i && i' < j < |rules| && Contain(rules[i'], rules[j]) ==> (i', j) in pairs
      invariant forall a, b :: 0 <= a < b < |pairs| ==> Before(pairs[a], pairs[b])
    {
      for j := i + 1 to |rules|
        invariant forall p :: p in pairs ==> p.0 < p.1 < |rules| && Contain(rules[p.0], rules[p.1])
        invariant forall p :: p in pairs ==> p.0 < i || (p.0 == i && p.1 < j)
        invariant forall i', j' :: 0 <= i' < i && i' < j' < |rules| && Contain(rules[i'], rules[j']) ==> (i', j') in pairs
        invariant forall j' :: i < j' < j && Contain(rules[i], rules[j']) ==> (i, j') in pairs
        invariant forall a, b :: 0 <= a < b < |pairs| ==> Before(pairs[a], pairs[b])
      {
        var contain := ContainFlag(rules[i], rules[j]);
        if contain {
          assert forall a :: 0 <= a < |pairs| ==> pairs[a] in pairs;
          pairs := pairs + [(i, j)];
        }
      }
      forall i', j' | 0 <= i' <= i && i' < j' < |rules| && Contain(rules[i'], rules[j'])
        ensures (i', j') in pairs
      {
        if i' == i {
          assert i < j' < |rules|;
        }
      }
    }
  }

  // ---------------------------------------------------------------------
  // What the containment test means
  // ---------------------------------------------------------------------

  /** The half-open prefix blocks of dimension `k` share a value. */
  predicate BlocksMeet(a: Rule, b: Rule, k: nat)
    requires k < 4 && LengthsInRange(a) && LengthsInRange(b)
  {
    && a.Dim(k).low < b.Dim(k).low + Pow2(32 - BlockLen(b, k))
    && b.Dim(k).low < a.Dim(k).low + Pow2(32 - BlockLen(a, k))
  }

  /** Two multiples of `q` less than `q` apart in this order are ordered. */
  lemma AlignedOrder(x: nat, y: nat, q: nat)
    requires q > 0 && x % q == 0 && y % q == 0 && x < y + q
    ensures x <= y
  {
    var qx, qy := x / q, y / q;
    DivBounds(x, q);
    DivBounds(y, q);
    if qx <= qy {
      assert qy * q == qx * q + (qy - qx) * q;
      MulNonneg(qy - qx, q);
    } else {
      assert qx * q == qy * q + (qx - qy - 1) * q + q;
      MulNonneg(qx - qy - 1, q);
    }
  }

  /** For blocks aligned to their sizes `2^sy <= 2^sx`, the top bits above
      the larger size agree exactly when the blocks meet. */
  lemma SameTopIffMeetOrdered(x: nat, sx: nat, y: nat, sy: nat)
    requires sy <= sx && x % Pow2(sx) == 0 && y % Pow2(sy) == 0
    ensures Shr(x, sx) == Shr(y, sx) <==> (x < y + Pow2(sy) && y < x + Pow2(sx))
  {
    var p, q := Pow2(sx), Pow2(sy);
    Pow2Monotone(sy, sx);
    PortMask.AlignedFitMonotone(x, x + p - 1, sy, sx);
    var qx := x / p;
    DivBounds(x, p);
    DivBounds(y, p);
    if x < y + q && y < x + p {
      AlignedOrder(x, y, q);
      DivModUnique(y, p, qx, y - x);
    }
  }

  lemma SameTopIffMeet(x: nat, sx: nat, y: nat, sy: nat)
    requires x % Pow2(sx) == 0 && y % Pow2(sy) == 0
    ensures var s := if sx >= sy then sx else sy;
            Shr(x, s) == Shr(y, s) <==> (x < y + Pow2(sy) && y < x + Pow2(sx))
  {
    if sy <= sx {
      SameTopIffMeetOrdered(x, sx, y, sy);
    } else {
      SameTopIffMeetOrdered(y, sy, x, sx);
    }
  }

  /** For rules whose blocks are aligned, as every synthesized rule's are,
      the containment test holds exactly when the two rules' prefix blocks
      meet in all four looked-up dimensions. */
  lemma ContainIffBlocksMeet(a: Rule, b: Rule)
    requires LengthsInRange(a) && LengthsInRange(b) && Aligned(a) && Aligned(b)
    ensures Contain(a, b) <==> forall k :: 0 <= k < 4 ==> BlocksMeet(a, b, k)
  {
    forall k | 0 <= k < 4
      ensures SameTop(a, b, k) <==> BlocksMeet(a, b, k)
    {
      SameTopIffMeet(a.Dim(k).low, 32 - BlockLen(a, k), b.Dim(k).low, 32 - BlockLen(b, k));
    }
  }

  /** A rule always passes the test against itself. */
  lemma ContainReflexive(a: Rule)
    requires LengthsInRange(a)
    ensures Contain(a, a)
  {
  }

  /** The test does not depend on the order of the pair. */
  lemma ContainSymmetric(a: Rule, b: Rule)
    requires LengthsInRange(a) && LengthsInRange(b)
    ensures Contain(a, b) <==> Contain(b, a)
  {
    assert forall k :: 0 <= k < 4 ==> (SameTop(a, b, k) <==> SameTop(b, a, k));
  }

  /** The whole of `MegaFlowRules` after the tries are built: the
      synthesis loop followed by `CheckMegaFlowRules` on its result.  The
      pairs reported are exactly the pairs of emitted rules whose prefix
      blocks meet in all four dimensions. */
  method MegaFlowRulesChecked(traces: seq<Trace>, lpm: (nat, U32) -> PrefixLen)
    returns (out: seq<Rule>, pairs: seq<(nat, nat)>)
    ensures out == KeepFirst(Candidates(traces, lpm), Whole)
    ensures forall i :: 0 <= i < |out| ==> LengthsInRange(out[i])
    ensures forall p :: p in pairs ==>
              p.0 < p.1 < |out| && forall k :: 0 <= k < 4 ==> BlocksMeet(out[p.0], out[p.1], k)
    ensures forall i, j :: 0 <= i < j < |out| && (forall k :: 0 <= k < 4 ==> BlocksMeet(out[i], out[j], k)) ==>
              (i, j) in pairs
  {
    out := MegaFlowRules(traces, lpm);
    MegaFlowRulesAligned(traces, lpm);
    assert forall i :: 0 <= i < |out| ==> out[i] in out;
    pairs := CheckMegaFlowRules(out);
    forall i, j | 0 <= i < |out| && 0 <= j < |out|
      ensures Contain(out[i], out[j]) <==> forall k :: 0 <= k < 4 ==> BlocksMeet(out[i], out[j], k)
    {
      ContainIffBlocksMeet(out[i], out[j]);
    }
  }
}
