/**
 * String operations the database performs on the asset table's text columns:
 * ASCII case folding (what `ilike` does), case-insensitive equality (an `ilike`
 * pattern without wildcards), case-insensitive substring search (an `ilike`
 * pattern `%text%`) and the lexicographic order used by ORDER BY.
 */
module Text {

  /** ASCII lower-casing of one character; other characters are left alone. */
  function Lower(c: char): char
  {
    if 'A' <= c <= 'Z' then (c as int + 32) as char else c
  }

  /** A string that case folding leaves unchanged. */
  predicate IsLower(s: string) {
    forall i :: 0 <= i < |s| ==> Lower(s[i]) == s[i]
  }

  /** Reference definition: `p` occurs in `t` at offset `k`, ignoring case. */
  predicate OccursAt(t: string, p: string, k: int) {
    0 <= k && k + |p| <= |t| && forall j :: 0 <= j < |p| ==> Lower(t[k + j]) == Lower(p[j])
  }

  /** `p` is a prefix of `t`, ignoring case (computed character by character). */
  function PrefixCI(t: string, p: string): (r: bool)
    ensures r <==> OccursAt(t, p, 0)
  {
    if p == [] then true
    else if t == [] then false
    else
      var r := Lower(t[0]) == Lower(p[0]) && PrefixCI(t[1..], p[1..]);
      DropFirst(t, p);
      r
  }

  lemma DropFirst(t: string, p: string)
    requires t != [] && p != []
    ensures OccursAt(t, p, 0) <==> Lower(t[0]) == Lower(p[0]) && OccursAt(t[1..], p[1..], 0)
  {
    if Lower(t[0]) == Lower(p[0]) && OccursAt(t[1..], p[1..], 0) {
      forall j | 0 <= j < |p|
        ensures Lower(t[j]) == Lower(p[j])
      {
        if j > 0 {
          assert t[j] == t[1..][j - 1] && p[j] == p[1..][j - 1];
        }
      }
    }
  }

  /** `t ilike p` when `p` holds no wildcard: equal up to case. */
  function EqualsCI(t: string, p: string): (r: bool)
    ensures r <==> |t| == |p| && forall j :: 0 <= j < |p| ==> Lower(t[j]) == Lower(p[j])
  {
    |t| == |p| && PrefixCI(t, p)
  }

  /** `t ilike '%p%'`: a scan over the start positions of `t`. */
  function ContainsCI(t: string, p: string): (r: bool)
    ensures r <==> exists k :: OccursAt(t, p, k)
    decreases |t|
  {
    if |p| > |t| then
      assert forall k :: !OccursAt(t, p, k);
      false
    else if PrefixCI(t, p) then
      true
    else
      var r := ContainsCI(t[1..], p);
      ShiftOccurrence(t, p);
      r
  }

  lemma ShiftOccurrence(t: string, p: string)
    requires t != []
    ensures forall k :: 0 <= k ==> (OccursAt(t[1..], p, k) <==> OccursAt(t, p, k + 1))
    ensures (exists k :: OccursAt(t, p, k)) <==> OccursAt(t, p, 0) || exists k :: OccursAt(t[1..], p, k)
  {
    forall k | 0 <= k && OccursAt(t, p, k + 1)
      ensures OccursAt(t[1..], p, k)
    {
      forall j | 0 <= j < |p|
        ensures Lower(t[1..][k + j]) == Lower(p[j])
      {
        assert t[1..][k + j] == t[k + 1 + j];
      }
    }
    forall k | OccursAt(t[1..], p, k)
      ensures OccursAt(t, p, k + 1)
    {
      forall j | 0 <= j < |p|
        ensures Lower(t[k + 1 + j]) == Lower(p[j])
      {
        assert t[1..][k + j] == t[k + 1 + j];
      }
    }
    if exists k :: OccursAt(t, p, k) {
      var k :| OccursAt(t, p, k);
      if k > 0 {
        assert OccursAt(t, p, (k - 1) + 1);
        assert OccursAt(t[1..], p, k - 1);
      }
    }
  }

  /**
   * Both sides of a case-insensitive comparison already in lower case: the
   * comparison is then plain equality.
   */
  lemma {:induction false} EqualsCIOfLower(a: string, b: string)
    requires IsLower(a) && IsLower(b)
    ensures EqualsCI(a, b) <==> a == b
  {
    if EqualsCI(a, b) {
      forall j | 0 <= j < |a|
        ensures a[j] == b[j]
      {
        assert Lower(a[j]) == a[j] && Lower(b[j]) == b[j];
      }
    }
  }

  /** Lexicographic order on code points (the `BINARY` collation). */
  predicate StrLe(a: string, b: string) {
    if a == [] then true
    else if b == [] then false
    else if a[0] != b[0] then a[0] < b[0]
    else StrLe(a[1..], b[1..])
  }

  lemma {:induction false} StrLeTotal(a: string, b: string)
    ensures StrLe(a, b) || StrLe(b, a)
  {
    if a != [] && b != [] && a[0] == b[0] {
      StrLeTotal(a[1..], b[1..]);
    }
  }

  lemma {:induction false} StrLeAntisym(a: string, b: string)
    requires StrLe(a, b) && StrLe(b, a)
    ensures a == b
  {
    if a != [] && b != [] {
      StrLeAntisym(a[1..], b[1..]);
      assert a == [a[0]] + a[1..] && b == [b[0]] + b[1..];
    }
  }

  lemma {:induction false} StrLeTrans(a: string, b: string, c: string)
    requires StrLe(a, b) && StrLe(b, c)
    ensures StrLe(a, c)
  {
    if a != [] && b != [] && c != [] && a[0] == b[0] && b[0] == c[0] {
      StrLeTrans(a[1..], b[1..], c[1..]);
    }
  }
}
