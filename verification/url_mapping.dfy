/** The URL mapping both scripts share, as the plain JavaScript object it is:
    string keys in insertion order, each bound to one value. Assigning an
    existing key updates its value in place and keeps its position; a new
    key goes to the end. (No key is an integer-like string, so the
    insertion order is also the iteration order, and it survives the JSON
    file in between.) */
module UrlMapping {
  import opened Strings

  type Mapping = seq<(string, string)>

  /** No key is bound twice. */
  predicate DistinctKeys(m: Mapping)
  {
    forall a, b :: 0 <= a < b < |m| ==> m[a].0 != m[b].0
  }

  /** What the rewriter relies on: keys are non-empty (an empty key would
      match between every two characters), and URLs hold no `$`, which
      `String.prototype.replace` would read as a substitution pattern. */
  predicate ValidMapping(m: Mapping)
  {
    forall i :: 0 <= i < |m| ==> |m[i].0| > 0 && '$' !in m[i].1
  }

  /** `k` is one of the keys of `m`. */
  predicate HasKey(m: Mapping, k: string)
  {
    exists i :: 0 <= i < |m| && m[i].0 == k
  }

  /** `obj[k]`: the value bound to `k`, if any. */
  function Lookup(m: Mapping, k: string): (v: Option<string>)
    ensures v.Some? <==> HasKey(m, k)
  {
    if |m| == 0 then None
    else if m[0].0 == k then Some(m[0].1)
    else
      assert forall i :: 1 <= i < |m| ==> m[i] == m[1..][i - 1];
      Lookup(m[1..], k)
  }

  /** `obj[k] = v`: afterwards `k` finds `v` and every other key finds what
      it found before. */
  function Assign(m: Mapping, k: string, v: string): (r: Mapping)
    ensures Lookup(r, k) == Some(v)
    ensures forall k' :: k' != k ==> Lookup(r, k') == Lookup(m, k')
  {
    if |m| == 0 then [(k, v)]
    else if m[0].0 == k then [(k, v)] + m[1..]
    else
      var rest := Assign(m[1..], k, v);
      assert forall i :: 1 <= i < |m| ==> m[i] == m[1..][i - 1];
      assert Lookup([m[0]] + rest, k) == Lookup(rest, k);
      assert forall k' :: Lookup([m[0]] + rest, k') == if m[0].0 == k' then Some(m[0].1) else Lookup(rest, k');
      [m[0]] + rest
  }

  /** An existing key keeps its position and a new key goes to the end;
      every entry is the assigned one or the one that was at its position. */
  lemma {:induction false} AssignPositions(m: Mapping, k: string, v: string)
    ensures !HasKey(m, k) ==> Assign(m, k, v) == m + [(k, v)]
    ensures |Assign(m, k, v)| >= |m|
    ensures forall i :: 0 <= i < |Assign(m, k, v)| ==>
              Assign(m, k, v)[i] == (k, v) || (i < |m| && Assign(m, k, v)[i] == m[i])
  {
    if |m| > 0 && m[0].0 != k {
      AssignPositions(m[1..], k, v);
      var rest := Assign(m[1..], k, v);
      var r := [m[0]] + rest;
      assert Assign(m, k, v) == r;
      assert forall i :: 1 <= i < |r| ==> r[i] == rest[i - 1];
      assert forall i :: 1 <= i < |m| ==> m[i] == m[1..][i - 1];
      if !HasKey(m, k) {
        assert !HasKey(m[1..], k);
        assert m == [m[0]] + m[1..];
      }
    }
  }

  /** Assignment never binds a key twice. */
  lemma {:induction false} AssignKeepsDistinct(m: Mapping, k: string, v: string)
    requires DistinctKeys(m)
    ensures DistinctKeys(Assign(m, k, v))
  {
    if |m| > 0 {
      DistinctKeysTail(m);
      if m[0].0 == k {
        var r := Assign(m, k, v);
        assert r == [(k, v)] + m[1..];
        forall a, b | 0 <= a < b < |r|
          ensures r[a].0 != r[b].0
        {
          assert r[b] == m[b];
          if a > 0 {
            assert r[a] == m[a];
          }
        }
      } else {
        AssignKeepsDistinct(m[1..], k, v);
        ConsDistinct(m, Assign(m[1..], k, v), k);
      }
    }
  }

  lemma DistinctKeysTail(m: Mapping)
    requires |m| > 0 && DistinctKeys(m)
    ensures DistinctKeys(m[1..]) && !HasKey(m[1..], m[0].0)
  {
    forall a, b | 0 <= a < b < |m| - 1
      ensures m[1..][a].0 != m[1..][b].0
    {
      assert m[1..][a] == m[a + 1] && m[1..][b] == m[b + 1];
    }
    forall i | 0 <= i < |m| - 1
      ensures m[1..][i].0 != m[0].0
    {
      assert m[1..][i] == m[i + 1];
    }
  }

  /** Re-attaching the first entry in front of the rest after an assignment
      to another key keeps the keys distinct. */
  lemma ConsDistinct(m: Mapping, rest: Mapping, k: string)
    requires |m| > 0 && m[0].0 != k
    requires forall k' :: k' != k ==> Lookup(rest, k') == Lookup(m[1..], k')
    requires DistinctKeys(m) && DistinctKeys(rest)
    ensures DistinctKeys([m[0]] + rest)
  {
    {
      DistinctKeysTail(m);
      assert Lookup(rest, m[0].0) == None;
      var r := [m[0]] + rest;
      forall a, b | 0 <= a < b < |r|
        ensures r[a].0 != r[b].0
      {
        assert r[b] == rest[b - 1];
        if a > 0 {
          assert r[a] == rest[a - 1];
        }
      }
    }
  }

  /** In a mapping without repeated keys, looking up the key at position `p`
      finds the value at position `p`. */
  lemma {:induction false} LookupAt(m: Mapping, p: nat)
    requires DistinctKeys(m) && p < |m|
    ensures Lookup(m, m[p].0) == Some(m[p].1)
  {
    if p > 0 {
      assert m[0].0 != m[p].0;
      assert m[1..][p - 1] == m[p];
      DistinctKeysTail(m);
      LookupAt(m[1..], p - 1);
    }
  }
}
