/**
 The two string operations the catalog searches use: `toLowerCase` (on the
 ASCII letters) and `includes` (substring search).
 */
module Text {

  /** Lower-cases one ASCII capital letter; every other character is kept. */
  function LowerChar(c: char): char
  {
    if 'A' <= c <= 'Z' then (c as int + 32) as char else c
  }

  /** `s.toLowerCase()`, character by character. */
  function Lower(s: string): (r: string)
    ensures |r| == |s|
    ensures forall i :: 0 <= i < |r| ==> !('A' <= r[i] <= 'Z')
    ensures forall i :: 0 <= i < |s| && !('A' <= s[i] <= 'Z') ==> r[i] == s[i]
    ensures forall i :: 0 <= i < |s| && 'A' <= s[i] <= 'Z' ==> r[i] as int - 'a' as int == s[i] as int - 'A' as int
  {
    seq(|s|, i requires 0 <= i < |s| => LowerChar(s[i]))
  }

  /** Lowering is idempotent, so lowering a query first changes nothing. */
  lemma LowerIdempotent(s: string)
    ensures Lower(Lower(s)) == Lower(s)
  {
  }

  /** `fragment` occurs in `s` starting at offset `i`. */
  ghost predicate OccursAt(fragment: string, s: string, i: int)
  {
    0 <= i <= |s| - |fragment| && s[i..i + |fragment|] == fragment
  }

  /** `fragment` occurs in `s` at some offset. */
  ghost predicate OccursIn(fragment: string, s: string)
  {
    exists i :: OccursAt(fragment, s, i)
  }

  /** `s.includes(fragment)`: the search tries every offset from the left. */
  function Includes(s: string, fragment: string): (r: bool)
    ensures r <==> OccursIn(fragment, s)
    decreases |s|
  {
    if |fragment| > |s| then false
    else if s[..|fragment|] == fragment then
      assert OccursAt(fragment, s, 0);
      true
    else
      var r := Includes(s[1..], fragment);
      assert OccursIn(fragment, s) ==> OccursIn(fragment, s[1..]) by {
        if OccursIn(fragment, s) {
          var i :| OccursAt(fragment, s, i);
          assert i != 0;
          assert s[1..][i - 1..i - 1 + |fragment|] == s[i..i + |fragment|];
          assert OccursAt(fragment, s[1..], i - 1);
        }
      }
      assert OccursIn(fragment, s[1..]) ==> OccursIn(fragment, s) by {
        if OccursIn(fragment, s[1..]) {
          var j :| OccursAt(fragment, s[1..], j);
          assert s[j + 1..j + 1 + |fragment|] == s[1..][j..j + |fragment|];
          assert OccursAt(fragment, s, j + 1);
        }
      }
      r
  }

  /** The empty query is contained in every string. */
  lemma EmptyFragmentMatches(s: string)
    ensures Includes(s, "")
  {
  }
}
