/**
 * Picus variable names: identifiers over `[A-Za-z0-9_]`, the sanitising
 * conversion from arbitrary text, and the table that maps variable keys to
 * unique names.
 */
module Vars {
  import opened Wrappers
  import opened Names

  predicate IdentChar(c: char)
  {
    'A' <= c <= 'Z' || 'a' <= c <= 'z' || '0' <= c <= '9' || c == '_'
  }

  /** Every character is one of `[A-Za-z0-9_]`. */
  predicate IdentChars(s: string)
  {
    forall i :: 0 <= i < |s| ==> IdentChar(s[i])
  }

  /** The identifier pattern `^[A-Za-z0-9_]+$`. */
  predicate ValidIdent(s: string)
  {
    |s| > 0 && IdentChars(s)
  }

  /** `VarStr::try_from`: accepts exactly the strings matching the identifier pattern. */
  function VarStrFrom(s: string): (r: Result<string>)
    ensures r.Ok? <==> ValidIdent(s)
    ensures r.Ok? ==> r.value == s
    ensures r.Err? ==> r.error == "String \"" + s + "\" is not a valid Picus identifier"
  {
    if ValidIdent(s) then Ok(s) else Err("String \"" + s + "\" is not a valid Picus identifier")
  }

  /** Drops the leading run of characters outside the identifier alphabet. */
  function DropInvalid(s: string): (r: string)
    ensures |r| <= |s| && r == s[|s| - |r|..]
    ensures r != [] ==> IdentChar(r[0])
    ensures forall i :: 0 <= i < |s| - |r| ==> !IdentChar(s[i])
  {
    if s == [] || IdentChar(s[0]) then s else DropInvalid(s[1..])
  }

  /** `Ident::from`: each maximal run of characters outside `[A-Za-z0-9_]` becomes one `_`. */
  function Sanitize(s: string): (r: string)
    decreases |s|
  {
    if s == [] then []
    else if IdentChar(s[0]) then [s[0]] + Sanitize(s[1..])
    else "_" + Sanitize(DropInvalid(s[1..]))
  }

  lemma {:induction false} SanitizeIsIdent(s: string)
    ensures IdentChars(Sanitize(s))
    ensures |Sanitize(s)| == 0 <==> |s| == 0
    ensures |Sanitize(s)| <= |s|
    decreases |s|
  {
    if s != [] {
      if IdentChar(s[0]) {
        SanitizeIsIdent(s[1..]);
      } else {
        SanitizeIsIdent(DropInvalid(s[1..]));
      }
    }
  }

  /** An identifier passes through unchanged. */
  lemma {:induction false} SanitizeKeepsIdent(s: string)
    requires IdentChars(s)
    ensures Sanitize(s) == s
    decreases |s|
  {
    if s != [] {
      SanitizeKeepsIdent(s[1..]);
    }
  }

  /** A non-empty text always sanitises to a valid identifier. */
  lemma SanitizedIsValid(s: string)
    requires s != []
    ensures VarStrFrom(Sanitize(s)) == Ok(Sanitize(s))
  {
    SanitizeIsIdent(s);
  }

  lemma SanitizeExamples()
    ensures Sanitize(":y") == "_y"
    ensures VarStrFrom("a b").Err?
  {
    assert ":y"[1..] == "y";
    assert DropInvalid("y") == "y";
    assert Sanitize("y") == "y" by {
      assert "y"[1..] == [];
    }
    assert !IdentChar(' ') && "a b"[1] == ' ';
  }

  lemma SuffixKeepsIdent(s: string, k: nat)
    requires IdentChars(s)
    ensures ValidIdent(Suffixed(s, k))
  {
    var r := Suffixed(s, k);
    assert r[..|s|] == s;
    forall i | 0 <= i < |r|
      ensures IdentChar(r[i])
    {
      if i < |s| {
        assert r[i] == r[..|s|][i];
      } else {
        assert r[i] == NatToString(k)[i - |s|];
      }
    }
  }

  /** The names in use. */
  function Values<K>(m: map<K, string>): set<string>
  {
    set k | k in m :: m[k]
  }

  /** No two keys share a name. */
  predicate Unique<K>(m: map<K, string>)
  {
    forall k1, k2 :: k1 in m && k2 in m && k1 != k2 ==> m[k1] != m[k2]
  }

  /** The names of the keys that satisfy `p`, as listed by `inputs`, `outputs` and `temporaries`. */
  function Filter<K>(m: map<K, string>, p: K -> bool): (r: set<string>)
    ensures forall n :: n in r <==> exists k :: k in m && p(k) && m[k] == n
    ensures r <= Values(m)
  {
    set k | k in m && p(k) :: m[k]
  }

  /** The three filters split the names when each key satisfies at least one of the predicates. */
  lemma FiltersCover<K>(m: map<K, string>, isInput: K -> bool, isOutput: K -> bool, isTemp: K -> bool)
    requires forall k :: k in m ==> isInput(k) || isOutput(k) || isTemp(k)
    ensures Filter(m, isInput) + Filter(m, isOutput) + Filter(m, isTemp) == Values(m)
  {
    forall n | n in Values(m)
      ensures n in Filter(m, isInput) + Filter(m, isOutput) + Filter(m, isTemp)
    {
      var k :| k in m && m[k] == n;
      assert isInput(k) || isOutput(k) || isTemp(k);
    }
  }

  /** A new key gets the seed, else the first of `seed2`, `seed3`, ... not in use. */
  ghost predicate FreshName(seed: string, used: set<string>, name: string)
  {
    name !in used &&
    (seed !in used ==> name == seed) &&
    (seed in used ==> exists k: nat :: k >= 2 && name == Suffixed(seed, k) &&
                         forall j: nat :: 2 <= j < k ==> Suffixed(seed, j) in used)
  }

  /** The fresh name is determined by the seed and the names in use. */
  lemma FreshNameUnique(seed: string, used: set<string>, a: string, b: string)
    requires FreshName(seed, used, a) && FreshName(seed, used, b)
    ensures a == b
  {
    if seed in used {
      var ka: nat :| ka >= 2 && a == Suffixed(seed, ka) && forall j: nat :: 2 <= j < ka ==> Suffixed(seed, j) in used;
      var kb: nat :| kb >= 2 && b == Suffixed(seed, kb) && forall j: nat :: 2 <= j < kb ==> Suffixed(seed, j) in used;
      assert ka < kb ==> Suffixed(seed, ka) in used;
      assert kb < ka ==> Suffixed(seed, kb) in used;
    }
  }

  class VarTable<K(==)> {
    var vars: map<K, string>

    /** Every name is made of identifier characters. */
    predicate Valid()
      reads this
    {
      forall k :: k in vars ==> IdentChars(vars[k])
    }

    constructor ()
      ensures vars == map[] && Valid()
    {
      vars := map[];
    }

    /** `Vars::insert`: the cached name of a known key, else a fresh name recorded for it. */
    method Insert(key: K, seed: string) returns (name: string)
      requires Valid() && IdentChars(seed)
      modifies this
      ensures Valid()
      ensures key in old(vars) ==> name == old(vars)[key] && vars == old(vars)
      ensures key !in old(vars) ==> FreshName(seed, Values(old(vars)), name) && vars == old(vars)[key := name]
      ensures Unique(old(vars)) ==> Unique(vars)
    {
      if key in vars {
        return vars[key];
      }
      var used := Values(vars);
      if seed !in used {
        name := seed;
      } else {
        var k := FirstFreeSuffix(seed, 2, used);
        name := Suffixed(seed, k);
        SuffixKeepsIdent(seed, k);
      }
      vars := vars[key := name];
    }

    /** `insert_with_value`: overwrites like a map insert. */
    method InsertWithValue(key: K, v: string)
      requires Valid() && ValidIdent(v)
      modifies this
      ensures Valid() && vars == old(vars)[key := v]
    {
      vars := vars[key := v];
    }

    /** `lookup_key`: some key holding the name, or none when the name is not in use. */
    method LookupKey(v: string) returns (r: Option<K>)
      ensures r.None? <==> v !in Values(vars)
      ensures r.Some? ==> r.value in vars && vars[r.value] == v
    {
      if v in Values(vars) {
        var k :| k in vars && vars[k] == v;
        r := Some(k);
      } else {
        r := None;
      }
    }

    method IsEmpty() returns (r: bool)
      ensures r <==> vars == map[]
    {
      r := |vars| == 0;
    }
  }
}
