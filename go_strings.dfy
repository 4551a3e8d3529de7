/** The handful of Go `strings` operations the detector relies on
    (`strings.HasPrefix`, `strings.TrimPrefix`, `strings.Contains`) and the
    byte view of an ASCII literal. Go strings are byte strings, so these are
    generic over the element type: they serve both the decoded
    `packageManager` string and the raw bytes sampled from `yarn.lock`. */
module GoStrings {

  newtype byte = b: int | 0 <= b < 0x100

  /** `bytes` is what Go stores for the ASCII text `text`: one byte per
      character, with the character's code. */
  predicate Spells(bytes: seq<byte>, text: string) {
    |bytes| == |text| && forall i | 0 <= i < |text| :: bytes[i] as int == text[i] as int
  }

  /** strings.HasPrefix */
  predicate HasPrefix<T(==)>(s: seq<T>, prefix: seq<T>) {
    |prefix| <= |s| && s[..|prefix|] == prefix
  }

  /** strings.TrimPrefix: `s` without a leading `prefix`, or `s` itself when it
      does not start with `prefix`. */
  function TrimPrefix<T(==)>(s: seq<T>, prefix: seq<T>): (r: seq<T>)
    ensures HasPrefix(s, prefix) ==> prefix + r == s
    ensures !HasPrefix(s, prefix) ==> r == s
  {
    if HasPrefix(s, prefix) then s[|prefix|..] else s
  }

  /** strings.Contains, as a scan from the left: `sub` is a prefix of some
      suffix of `s` (the empty `sub` is contained in every `s`). */
  predicate Contains<T(==)>(s: seq<T>, sub: seq<T>)
    decreases |s|
  {
    HasPrefix(s, sub) || (|s| > 0 && Contains(s[1..], sub))
  }

  /** `sub` occurs in `s` starting at index `i`. */
  ghost predicate OccursAt<T>(s: seq<T>, sub: seq<T>, i: int) {
    0 <= i && i + |sub| <= |s| && s[i..i + |sub|] == sub
  }

  /** Contains agrees with the positional definition of a substring. */
  lemma {:induction false} ContainsIffOccurs<T>(s: seq<T>, sub: seq<T>)
    ensures Contains(s, sub) <==> exists i :: OccursAt(s, sub, i)
    decreases |s|
  {
    if HasPrefix(s, sub) {
      assert OccursAt(s, sub, 0);
    } else if |s| == 0 {
      // the only candidate position is 0, which HasPrefix already ruled out
    } else {
      ContainsIffOccurs(s[1..], sub);
      if i :| OccursAt(s, sub, i) {
        assert i != 0;
        assert s[1..][i - 1..i - 1 + |sub|] == s[i..i + |sub|];
        assert OccursAt(s[1..], sub, i - 1);
      }
      if j :| OccursAt(s[1..], sub, j) {
        assert s[j + 1..j + 1 + |sub|] == s[1..][j..j + |sub|];
        assert OccursAt(s, sub, j + 1);
      }
    }
  }

  /** What Contains finds in a prefix of `s` is also in `s`. */
  lemma ContainedInPrefix<T>(s: seq<T>, k: nat, sub: seq<T>)
    requires k <= |s|
    requires Contains(s[..k], sub)
    ensures Contains(s, sub)
  {
    ContainsIffOccurs(s[..k], sub);
    var i :| OccursAt(s[..k], sub, i);
    assert s[i..i + |sub|] == s[..k][i..i + |sub|];
    assert OccursAt(s, sub, i);
    ContainsIffOccurs(s, sub);
  }

  /** A non-empty `sub` can only be contained in `s` if its first element
      occurs in `s`. */
  lemma FirstElementOccurs<T>(s: seq<T>, sub: seq<T>)
    requires |sub| > 0
    requires Contains(s, sub)
    ensures sub[0] in s
  {
  }
}
