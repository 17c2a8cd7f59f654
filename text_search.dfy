/** The two string operations the search box relies on: `toLowerCase`
    (ASCII letters only) and `includes` (substring test). */
module TextSearch {

  /** Lower-case of one character: 'A'..'Z' map to 'a'..'z', everything else is kept. */
  function LowerChar(c: char): (r: char)
    ensures !('A' <= r <= 'Z')
    ensures !('A' <= c <= 'Z') ==> r == c
    ensures 'A' <= c <= 'Z' ==> r as int - c as int == 32 && 'a' <= r <= 'z'
  {
    if 'A' <= c <= 'Z' then (c as int + 32) as char else c
  }

  /** `toLowerCase` applied character by character. */
  function Lower(s: string): (r: string)
    ensures |r| == |s|
  {
    if s == [] then [] else [LowerChar(s[0])] + Lower(s[1..])
  }

  /** Each character is lower-cased in place, and no capital letter is left. */
  lemma {:induction false} LowerSpec(s: string)
    ensures forall i :: 0 <= i < |s| ==> Lower(s)[i] == LowerChar(s[i])
    ensures forall i :: 0 <= i < |s| ==> !('A' <= Lower(s)[i] <= 'Z')
  {
    if s != [] {
      LowerSpec(s[1..]);
      assert forall i :: 1 <= i < |s| ==> Lower(s)[i] == Lower(s[1..])[i - 1];
    }
  }

  /** Lower-casing twice is lower-casing once. */
  lemma LowerIdempotent(s: string)
    ensures Lower(Lower(s)) == Lower(s)
  {
    LowerSpec(s);
    LowerSpec(Lower(s));
    assert forall i :: 0 <= i < |s| ==> Lower(Lower(s))[i] == Lower(s)[i];
  }

  /** `s.includes(q)`: q occurs in s at position 0 or somewhere later. */
  predicate Contains(s: string, q: string)
    decreases |s|
  {
    |q| <= |s| && (s[..|q|] == q || (|s| > 0 && Contains(s[1..], q)))
  }

  /** q occurs in s starting at position i. */
  predicate OccursAt(s: string, q: string, i: int) {
    0 <= i && i + |q| <= |s| && s[i..i + |q|] == q
  }

  /** `Contains` means what substring search promises: some window of s equals q. */
  lemma {:induction false} ContainsIffWindow(s: string, q: string)
    ensures Contains(s, q) <==> exists i :: OccursAt(s, q, i)
    decreases |s|
  {
    if |q| <= |s| && s[..|q|] == q {
      assert OccursAt(s, q, 0);
    } else if |q| <= |s| && |s| > 0 {
      ContainsIffWindow(s[1..], q);
      if Contains(s[1..], q) {
        var i :| OccursAt(s[1..], q, i);
        assert s[i + 1..i + 1 + |q|] == s[1..][i..i + |q|];
        assert OccursAt(s, q, i + 1);
      }
      if exists i :: OccursAt(s, q, i) {
        var i :| OccursAt(s, q, i);
        assert i != 0;
        assert s[1..][i - 1..i - 1 + |q|] == s[i..i + |q|];
        assert OccursAt(s[1..], q, i - 1);
      }
    }
  }

  /** The empty query occurs in every string. */
  lemma ContainsEmpty(s: string)
    ensures Contains(s, "")
  {
  }
}
