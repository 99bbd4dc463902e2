/** Case-insensitive text comparison, as the database lookups `iexact` and
    `icontains` and Python's `str.lower` perform it. Only the ASCII letters
    are folded. */
module CaseFold {

  predicate IsUpper(c: char) {
    'A' <= c <= 'Z'
  }

  function LowerChar(c: char): (d: char)
    ensures !IsUpper(d)
    ensures !IsUpper(c) ==> d == c
  {
    if IsUpper(c) then (c as int + 32) as char else c
  }

  /** `s.lower()`: every letter is folded, the length is kept. */
  function Lower(s: string): (r: string)
    ensures |r| == |s|
    ensures forall i :: 0 <= i < |s| ==> r[i] == LowerChar(s[i])
  {
    seq(|s|, i requires 0 <= i < |s| => LowerChar(s[i]))
  }

  predicate IsLowerCase(s: string) {
    forall i :: 0 <= i < |s| ==> !IsUpper(s[i])
  }

  /** `a__iexact=b` */
  predicate EqualsIgnoringCase(a: string, b: string) {
    Lower(a) == Lower(b)
  }

  /** `s` holds `sub` at position `i`. */
  predicate OccursAt(sub: string, s: string, i: nat) {
    i + |sub| <= |s| && s[i..i + |sub|] == sub
  }

  /** `sub in s`, decided by trying every start position from the left. */
  function IsSubstring(sub: string, s: string): (r: bool)
    ensures r <==> exists i: nat :: OccursAt(sub, s, i)
    decreases |s|
  {
    if |sub| > |s| then false
    else if s[..|sub|] == sub then
      assert OccursAt(sub, s, 0);
      true
    else
      if IsSubstring(sub, s[1..]) then
        var i: nat :| OccursAt(sub, s[1..], i);
        ShiftOccurrence(sub, s, i);
        true
      else
        assert !OccursAt(sub, s, 0);
        forall i: nat | OccursAt(sub, s, i) ensures false {
          ShiftOccurrence(sub, s, i - 1);
        }
        false
  }

  /** An occurrence in the tail is an occurrence one place further right. */
  lemma ShiftOccurrence(sub: string, s: string, i: nat)
    requires |s| > 0
    ensures OccursAt(sub, s, i + 1) <==> OccursAt(sub, s[1..], i)
  {
    if i + 1 + |sub| <= |s| {
      assert s[1..][i..i + |sub|] == s[i + 1..i + 1 + |sub|];
    }
  }

  /** `a__icontains=sub` */
  predicate ContainsIgnoringCase(s: string, sub: string) {
    IsSubstring(Lower(sub), Lower(s))
  }

  /** Folding twice is folding once, so a query lowered by the caller is
      matched exactly as the raw query would be. */
  lemma LowerIdempotent(s: string)
    ensures Lower(Lower(s)) == Lower(s)
  {
    assert forall i :: 0 <= i < |s| ==> LowerChar(LowerChar(s[i])) == LowerChar(s[i]);
  }

  /** The folded text has no upper-case letter and is equal to its input
      ignoring case. */
  lemma LowerIsCanonical(s: string)
    ensures IsLowerCase(Lower(s))
    ensures EqualsIgnoringCase(Lower(s), s)
  {
    LowerIdempotent(s);
  }
}
