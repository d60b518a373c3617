/** `UniqueRules` and `UniqueRulesIgnoreProtocol`: dropping every rule whose
    key was already seen earlier in the list.  The key is the rule with its
    priority zeroed, and for the second function also its protocol
    dimension; the label is part of the key in both. */
module Dedup {
  import opened RuleModel

  /** The map key of `UniqueRules`: the rule with priority 0. */
  function Key(r: Rule): Rule
  {
    r.(priority := 0)
  }

  /** The map key of `UniqueRulesIgnoreProtocol`: the rule with priority 0
      and `range[4]`, `prefix_len[4]` zeroed. */
  function KeyIgnoreProtocol(r: Rule): Rule
  {
    r.(priority := 0, proto := EmptyField)
  }

  /** The keys of the rules in `s`. */
  function Keys(s: seq<Rule>, key: Rule -> Rule): set<Rule>
  {
    set x | x in s :: key(x)
  }

  /** The reference definition: a rule is kept when its key does not occur
      among the keys of the rules before it. */
  function KeepFirst(s: seq<Rule>, key: Rule -> Rule): seq<Rule>
  {
    if s == [] then []
    else
      var front, x := s[..|s| - 1], s[|s| - 1];
      KeepFirst(front, key) + (if key(x) in Keys(front, key) then [] else [x])
  }

  /** The loop shared by both functions: `seen` plays the part of the
      `map<Rule, int>`, whose values are always 1. */
  method UniqueBy(rules: seq<Rule>, key: Rule -> Rule) returns (out: seq<Rule>)
    ensures out == KeepFirst(rules, key)
  {
    out := [];
    var seen: set<Rule> := {};
    for i := 0 to |rules|
      invariant out == KeepFirst(rules[..i], key)
      invariant seen == Keys(rules[..i], key)
    {
      var k := key(rules[i]);
      KeysSnoc(rules[..i], rules[i], key);
      assert rules[..i + 1] == rules[..i] + [rules[i]];
      if k !in seen {
        seen := seen + {k};
        out := out + [rules[i]];
      }
    }
    assert rules[..|rules|] == rules;
  }

  method UniqueRules(rules: seq<Rule>) returns (out: seq<Rule>)
    ensures out == KeepFirst(rules, Key)
  {
    out := UniqueBy(rules, Key);
  }

  method UniqueRulesIgnoreProtocol(rules: seq<Rule>) returns (out: seq<Rule>)
    ensures out == KeepFirst(rules, KeyIgnoreProtocol)
  {
    out := UniqueBy(rules, KeyIgnoreProtocol);
  }

  // ---------------------------------------------------------------------
  // Properties of the reference definition
  // ---------------------------------------------------------------------

  lemma KeysSnoc(s: seq<Rule>, x: Rule, key: Rule -> Rule)
    ensures Keys(s + [x], key) == Keys(s, key) + {key(x)}
  {
    assert forall y :: y in s + [x] <==> y in s || y == x;
  }

  /** The key of the last rule decides whether it is kept. */
  lemma KeepFirstSnoc(s: seq<Rule>, key: Rule -> Rule)
    requires s != []
    ensures KeepFirst(s, key) == KeepFirst(s[..|s| - 1], key)
              + (if key(s[|s| - 1]) in Keys(s[..|s| - 1], key) then [] else [s[|s| - 1]])
  {
  }

  /** A key that no rule of `s` has is not among its keys. */
  lemma NotInKeys(s: seq<Rule>, key: Rule -> Rule, k: Rule)
    requires forall j :: 0 <= j < |s| ==> key(s[j]) != k
    ensures k !in Keys(s, key)
  {
    forall y | y in s
      ensures key(y) != k
    {
      var j :| 0 <= j < |s| && s[j] == y;
    }
  }

  /** A key among the keys of `s` is the key of one of its rules. */
  lemma InKeys(s: seq<Rule>, key: Rule -> Rule, k: Rule) returns (j: nat)
    requires k in Keys(s, key)
    ensures j < |s| && key(s[j]) == k
  {
    var y :| y in s && key(y) == k;
    j :| j < |s| && s[j] == y;
  }

  /** Every key of the input is the key of some kept rule, and no other key
      is. */
  lemma {:induction false} KeepFirstKeys(s: seq<Rule>, key: Rule -> Rule)
    ensures Keys(KeepFirst(s, key), key) == Keys(s, key)
    decreases |s|
  {
    if s != [] {
      var front, x := s[..|s| - 1], s[|s| - 1];
      KeepFirstKeys(front, key);
      KeepFirstSnoc(s, key);
      assert s == front + [x];
      KeysSnoc(front, x, key);
      if key(x) !in Keys(front, key) {
        KeysSnoc(KeepFirst(front, key), x, key);
      }
    }
  }

  /** No two kept rules have the same key. */
  predicate DistinctKeys(s: seq<Rule>, key: Rule -> Rule)
  {
    forall i, j :: 0 <= i < j < |s| ==> key(s[i]) != key(s[j])
  }

  lemma {:induction false} KeepFirstDistinct(s: seq<Rule>, key: Rule -> Rule)
    ensures DistinctKeys(KeepFirst(s, key), key)
    decreases |s|
  {
    if s != [] {
      var front, x := s[..|s| - 1], s[|s| - 1];
      KeepFirstDistinct(front, key);
      KeepFirstKeys(front, key);
      KeepFirstSnoc(s, key);
      var kept := KeepFirst(front, key);
      if key(x) !in Keys(front, key) {
        forall i | 0 <= i < |kept|
          ensures key(kept[i]) != key(x)
        {
          assert key(kept[i]) in Keys(kept, key);
        }
      }
    }
  }

  /** `a` is `b` with some elements left out, order kept. */
  predicate IsSubsequence(a: seq<Rule>, b: seq<Rule>)
    decreases |b|
  {
    if a == [] then true
    else if b == [] then false
    else (a[|a| - 1] == b[|b| - 1] && IsSubsequence(a[..|a| - 1], b[..|b| - 1]))
         || IsSubsequence(a, b[..|b| - 1])
  }

  lemma {:induction false} KeepFirstSubsequence(s: seq<Rule>, key: Rule -> Rule)
    ensures IsSubsequence(KeepFirst(s, key), s)
    decreases |s|
  {
    if s != [] {
      var front, x := s[..|s| - 1], s[|s| - 1];
      KeepFirstSubsequence(front, key);
      KeepFirstSnoc(s, key);
      var kept := KeepFirst(front, key);
      if key(x) !in Keys(front, key) {
        var out := kept + [x];
        assert out[..|out| - 1] == kept && out[|out| - 1] == s[|s| - 1];
        assert IsSubsequence(out, s);
      } else {
        assert KeepFirst(s, key) == kept;
        assert IsSubsequence(kept, s[..|s| - 1]);
        assert IsSubsequence(kept, s);
      }
    }
  }

  /** Index `i` holds the first rule of `s` with its key. */
  predicate FirstOfKey(s: seq<Rule>, key: Rule -> Rule, i: int)
  {
    0 <= i < |s| && forall j :: 0 <= j < i ==> key(s[j]) != key(s[i])
  }

  /** The first rule of each key is kept. */
  lemma {:induction false} KeepFirstKeepsFirsts(s: seq<Rule>, key: Rule -> Rule)
    ensures forall i :: FirstOfKey(s, key, i) ==> s[i] in KeepFirst(s, key)
    decreases |s|
  {
    if s != [] {
      var front, x := s[..|s| - 1], s[|s| - 1];
      KeepFirstKeepsFirsts(front, key);
      KeepFirstSnoc(s, key);
      forall i | FirstOfKey(s, key, i)
        ensures s[i] in KeepFirst(s, key)
      {
        if i < |s| - 1 {
          assert front[i] == s[i];
          assert FirstOfKey(front, key, i);
          assert s[i] in KeepFirst(front, key);
        } else {
          NotInKeys(front, key, key(x));
        }
      }
    }
  }

  /** Every kept rule is the first rule of its key. */
  lemma {:induction false} KeepFirstOnlyFirsts(s: seq<Rule>, key: Rule -> Rule)
    ensures forall y :: y in KeepFirst(s, key) ==> exists i :: FirstOfKey(s, key, i) && s[i] == y
    decreases |s|
  {
    if s != [] {
      var front, x := s[..|s| - 1], s[|s| - 1];
      KeepFirstOnlyFirsts(front, key);
      KeepFirstSnoc(s, key);
      forall y | y in KeepFirst(s, key)
        ensures exists i :: FirstOfKey(s, key, i) && s[i] == y
      {
        if y in KeepFirst(front, key) {
          var i :| FirstOfKey(front, key, i) && front[i] == y;
          assert FirstOfKey(s, key, i) && s[i] == y;
        } else {
          assert y == x && key(x) !in Keys(front, key);
          forall j | 0 <= j < |s| - 1
            ensures key(s[j]) != key(x)
          {
            assert key(front[j]) in Keys(front, key);
          }
          assert FirstOfKey(s, key, |s| - 1);
        }
      }
    }
  }

  /** A list whose keys are already distinct is kept whole. */
  lemma {:induction false} KeepFirstOfDistinct(s: seq<Rule>, key: Rule -> Rule)
    requires DistinctKeys(s, key)
    ensures KeepFirst(s, key) == s
    decreases |s|
  {
    if s != [] {
      var front, x := s[..|s| - 1], s[|s| - 1];
      assert DistinctKeys(front, key);
      KeepFirstOfDistinct(front, key);
      KeepFirstSnoc(s, key);
      forall j | 0 <= j < |front|
        ensures key(front[j]) != key(x)
      {
        assert front[j] == s[j];
      }
      NotInKeys(front, key, key(x));
      assert s == front + [x];
    }
  }

  /** Running the deduplication a second time changes nothing. */
  lemma KeepFirstIdempotent(s: seq<Rule>, key: Rule -> Rule)
    ensures KeepFirst(KeepFirst(s, key), key) == KeepFirst(s, key)
  {
    KeepFirstDistinct(s, key);
    KeepFirstOfDistinct(KeepFirst(s, key), key);
  }

  /** A coarser key never keeps more rules: when `fine` keys agree, so do
      the `coarse` keys. */
  lemma {:induction false} KeepFirstCoarser(s: seq<Rule>, fine: Rule -> Rule, coarse: Rule -> Rule)
    requires forall a, b :: fine(a) == fine(b) ==> coarse(a) == coarse(b)
    ensures |KeepFirst(s, coarse)| <= |KeepFirst(s, fine)|
    decreases |s|
  {
    if s != [] {
      var front, x := s[..|s| - 1], s[|s| - 1];
      KeepFirstCoarser(front, fine, coarse);
      KeepFirstSnoc(s, fine);
      KeepFirstSnoc(s, coarse);
      if coarse(x) !in Keys(front, coarse) {
        forall j | 0 <= j < |front|
          ensures fine(front[j]) != fine(x)
        {
          assert coarse(front[j]) in Keys(front, coarse);
        }
        NotInKeys(front, fine, fine(x));
      }
    }
  }

  // ---------------------------------------------------------------------
  // The two keys
  // ---------------------------------------------------------------------

  /** Rules that agree on `Key` agree on `KeyIgnoreProtocol`. */
  lemma KeyIgnoreProtocolCoarser()
    ensures forall a, b :: Key(a) == Key(b) ==> KeyIgnoreProtocol(a) == KeyIgnoreProtocol(b)
  {
    forall a, b | Key(a) == Key(b)
      ensures KeyIgnoreProtocol(a) == KeyIgnoreProtocol(b)
    {
      assert KeyIgnoreProtocol(a) == Key(a).(proto := EmptyField);
      assert KeyIgnoreProtocol(b) == Key(b).(proto := EmptyField);
    }
  }

  /** Ignoring the protocol never keeps more rules than `UniqueRules`. */
  lemma IgnoreProtocolKeepsFewer(s: seq<Rule>)
    ensures |KeepFirst(s, KeyIgnoreProtocol)| <= |KeepFirst(s, Key)|
  {
    KeyIgnoreProtocolCoarser();
    KeepFirstCoarser(s, Key, KeyIgnoreProtocol);
  }

  /** Two rules that differ only in priority are one rule to `UniqueRules`:
      the first is kept. */
  lemma PriorityVariantsCollapse(a: Rule, b: Rule)
    requires a.(priority := 0) == b.(priority := 0)
    ensures KeepFirst([a, b], Key) == [a]
  {
    KeepFirstSnoc([a, b], Key);
    KeepFirstSnoc([a], Key);
    assert [a, b][..1] == [a];
    assert [a][..0] == [];
    assert Keys([a], Key) == {Key(a)};
  }

  /** Two rules that differ only in protocol and priority are one rule to
      `UniqueRulesIgnoreProtocol` but two rules to `UniqueRules`. */
  lemma ProtocolVariantsCollapse(a: Rule, b: Rule)
    requires a.(priority := 0, proto := EmptyField) == b.(priority := 0, proto := EmptyField)
    requires a.proto != b.proto
    ensures KeepFirst([a, b], KeyIgnoreProtocol) == [a]
    ensures KeepFirst([a, b], Key) == [a, b]
  {
    KeepFirstSnoc([a, b], Key);
    KeepFirstSnoc([a], Key);
    KeepFirstSnoc([a, b], KeyIgnoreProtocol);
    KeepFirstSnoc([a], KeyIgnoreProtocol);
    assert [a, b][..1] == [a];
    assert [a][..0] == [];
    assert Keys([a], KeyIgnoreProtocol) == {KeyIgnoreProtocol(a)};
    assert Keys([a], Key) == {Key(a)};
    assert Key(a).proto != Key(b).proto;
  }
}
