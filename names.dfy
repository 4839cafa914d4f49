/**
 * Decimal rendering of `usize` values and the `format!("{name}{k}")` names built
 * from them. All fresh-name searches of the frontend and of the Picus crate
 * append a decimal suffix to a base name and take the first name not yet in use.
 */
module Names {
  function DigitChar(d: nat): (c: char)
    requires d < 10
    ensures '0' <= c <= '9'
  {
    "0123456789"[d]
  }

  /** `k.to_string()`: the decimal digits of `k`, most significant first. */
  function NatToString(k: nat): (s: string)
    ensures |s| >= 1
    ensures forall i :: 0 <= i < |s| ==> '0' <= s[i] <= '9'
  {
    if k < 10 then [DigitChar(k)] else NatToString(k / 10) + [DigitChar(k % 10)]
  }

  lemma {:induction false} NatToStringInjective(a: nat, b: nat)
    requires NatToString(a) == NatToString(b)
    ensures a == b
  {
    if a < 10 && b < 10 {
      assert "0123456789"[a] == NatToString(a)[0] == "0123456789"[b];
    } else if a >= 10 && b >= 10 {
      var sa, sb := NatToString(a), NatToString(b);
      assert sa[|sa| - 1] == DigitChar(a % 10) && sb[|sb| - 1] == DigitChar(b % 10);
      assert a % 10 == b % 10;
      assert sa[..|sa| - 1] == NatToString(a / 10);
      assert sb[..|sb| - 1] == NatToString(b / 10);
      NatToStringInjective(a / 10, b / 10);
    }
  }

  /** `format!("{name}{k}")`. */
  function Suffixed(name: string, k: nat): (r: string)
    ensures |r| > |name| && r[..|name|] == name
  {
    name + NatToString(k)
  }

  lemma SuffixedInjective(name: string, a: nat, b: nat)
    requires Suffixed(name, a) == Suffixed(name, b)
    ensures a == b
  {
    assert Suffixed(name, a)[|name|..] == NatToString(a);
    assert Suffixed(name, b)[|name|..] == NatToString(b);
    NatToStringInjective(a, b);
  }

  /** The candidates `name{lo}`, ..., `name{hi - 1}`. */
  function SuffixedRange(name: string, lo: nat, hi: nat): (r: set<string>)
    decreases hi
  {
    if hi <= lo then {} else SuffixedRange(name, lo, hi - 1) + {Suffixed(name, hi - 1)}
  }

  lemma {:induction false} SuffixedRangeMembers(name: string, lo: nat, hi: nat, k: nat)
    ensures Suffixed(name, k) in SuffixedRange(name, lo, hi) <==> lo <= k < hi
    decreases hi
  {
    if hi > lo {
      SuffixedRangeMembers(name, lo, hi - 1, k);
      var last := Suffixed(name, hi - 1);
      assert SuffixedRange(name, lo, hi) == SuffixedRange(name, lo, hi - 1) + {last};
      if k != hi - 1 && Suffixed(name, k) == last {
        SuffixedInjective(name, k, hi - 1);
      }
    } else {
      assert SuffixedRange(name, lo, hi) == {};
    }
  }

  /** Every candidate `name{lo}`, ..., `name{k - 1}` is taken. */
  predicate AllTaken(name: string, lo: nat, k: nat, used: set<string>)
  {
    forall j :: lo <= j < k ==> Suffixed(name, j) in used
  }

  /** The search state after rejecting `name{lo}`, ..., `name{k - 1}`: all taken, all tried. */
  ghost predicate Searched(name: string, lo: nat, k: nat, used: set<string>, tried: set<string>)
  {
    lo <= k && tried == SuffixedRange(name, lo, k) && tried <= used && AllTaken(name, lo, k, used)
  }

  /**
   * One rejected candidate: it is taken and was not tried before, so trying it
   * leaves fewer untried members of `used`.
   */
  lemma RejectCandidate(name: string, lo: nat, k: nat, used: set<string>, tried: set<string>)
    requires Searched(name, lo, k, used, tried) && Suffixed(name, k) in used
    ensures Searched(name, lo, k + 1, used, tried + {Suffixed(name, k)})
    ensures |used - (tried + {Suffixed(name, k)})| < |used - tried|
  {
    var cand := Suffixed(name, k);
    SuffixedRangeMembers(name, lo, k, k);
    assert SuffixedRange(name, lo, k + 1) == tried + {cand};
    assert (used - (tried + {cand})) + {cand} == used - tried;
  }

  /**
   * The first `k >= lo` whose `name{k}` is not in `used`; the loop ends because
   * every rejected candidate is a distinct member of the finite set `used`.
   */
  method FirstFreeSuffix(name: string, lo: nat, used: set<string>) returns (k: nat)
    ensures lo <= k
    ensures Suffixed(name, k) !in used
    ensures AllTaken(name, lo, k, used)
  {
    k := lo;
    ghost var tried: set<string> := {};
    while Suffixed(name, k) in used
      invariant Searched(name, lo, k, used, tried)
      decreases |used - tried|
    {
      RejectCandidate(name, lo, k, used, tried);
      tried := tried + {Suffixed(name, k)};
      k := k + 1;
    }
  }
}
