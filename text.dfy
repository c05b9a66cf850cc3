/** The String.prototype methods the product search uses, over ASCII. */
module Text {

  function LowerChar(c: char): char {
    if 'A' <= c <= 'Z' then (c as int + 32) as char else c
  }

  predicate IsUpper(c: char) { 'A' <= c <= 'Z' }

  /** `toLowerCase`, for ASCII letters: same length, no upper-case letter left, and
      every character is either kept or is the lower-case form of the original. */
  function ToLower(s: string): (r: string)
    ensures |r| == |s|
    ensures forall i :: 0 <= i < |s| ==> !IsUpper(r[i])
    ensures forall i :: 0 <= i < |s| ==> r[i] == s[i] || (IsUpper(s[i]) && r[i] as int == s[i] as int + 32)
  {
    if |s| == 0 then "" else [LowerChar(s[0])] + ToLower(s[1..])
  }

  /** Lowering twice is lowering once. */
  lemma {:induction false} ToLowerIdempotent(s: string)
    ensures ToLower(ToLower(s)) == ToLower(s)
  {
    if |s| > 0 {
      ToLowerIdempotent(s[1..]);
      assert ToLower(s)[1..] == ToLower(s[1..]);
    }
  }

  /** `sub` occurs in `s` starting at index `i`. */
  predicate OccursAt(s: string, sub: string, i: int) {
    0 <= i && i + |sub| <= |s| && s[i..i + |sub|] == sub
  }

  lemma SliceOfTail(s: string, i: nat, n: nat)
    requires 0 < |s| && i + n < |s|
    ensures s[1..][i..i + n] == s[i + 1..i + 1 + n]
  {
    var a, b := s[1..][i..i + n], s[i + 1..i + 1 + n];
    assert |a| == |b|;
    forall k | 0 <= k < n ensures a[k] == b[k] {
      assert a[k] == s[1..][i + k] == s[i + 1 + k];
    }
  }

  /** `sub` occurs in a non-empty `s` exactly when it is a prefix of `s` or occurs in
      the rest of `s` after its first character. */
  lemma OccursInTail(s: string, sub: string)
    requires |s| > 0
    ensures (exists i :: OccursAt(s, sub, i)) <==>
      (|sub| <= |s| && s[..|sub|] == sub) || exists i :: OccursAt(s[1..], sub, i)
  {
    var tail := s[1..];
    forall i | OccursAt(tail, sub, i) ensures OccursAt(s, sub, i + 1) {
      SliceOfTail(s, i, |sub|);
    }
    forall i | OccursAt(s, sub, i) && i > 0 ensures OccursAt(tail, sub, i - 1) {
      SliceOfTail(s, i - 1, |sub|);
    }
    if |sub| <= |s| && s[..|sub|] == sub {
      assert OccursAt(s, sub, 0);
    }
  }

  /** `s.includes(sub)`: holds exactly when `sub` occurs at some index of `s`. */
  function Includes(s: string, sub: string): (r: bool)
    ensures r <==> exists i :: OccursAt(s, sub, i)
    decreases |s|
  {
    if |s| == 0 then
      assert |sub| == 0 ==> OccursAt(s, sub, 0);
      |sub| == 0
    else
      OccursInTail(s, sub);
      (|sub| <= |s| && s[..|sub|] == sub) || Includes(s[1..], sub)
  }
}
