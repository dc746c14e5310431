/** Key normalisation: every key is lower-cased before it reaches the store,
    so keys are case-insensitive. Lower-casing is modelled on the ASCII
    letters A-Z; every other character is left as it is. */
module Keys {

  predicate IsUpper(c: char) {
    'A' <= c <= 'Z'
  }

  /** Lower-cases one character. */
  function LowerChar(c: char): (r: char)
    ensures !IsUpper(r)
    ensures r != c <==> IsUpper(c)
    ensures IsUpper(c) ==> r as int == c as int + 32
  {
    if IsUpper(c) then (c as int + 32) as char else c
  }

  /** A key with no upper-case letter: the form every store key has. */
  predicate IsNormalKey(key: string) {
    forall i :: 0 <= i < |key| ==> !IsUpper(key[i])
  }

  /** The same letter written in either case, or the same character:
      defined without reference to `LowerChar`. */
  predicate CaseVariant(c: char, d: char) {
    || c == d
    || (IsUpper(c) && d as int == c as int + 32)
    || (IsUpper(d) && c as int == d as int + 32)
  }

  /** Two keys that differ only in the letter case of some characters. */
  predicate SameIgnoringCase(a: string, b: string) {
    |a| == |b| && forall i :: 0 <= i < |a| ==> CaseVariant(a[i], b[i])
  }

  /** `GetKey`: the store key of a caller's key, its lower-cased form. */
  function GetKey(key: string): (r: string)
    ensures |r| == |key|
    ensures forall i :: 0 <= i < |key| ==> r[i] == LowerChar(key[i])
    ensures IsNormalKey(r)
  {
    if key == [] then [] else [LowerChar(key[0])] + GetKey(key[1..])
  }

  /** Two characters lower to the same character exactly when they are the
      same letter in either case (or the same character). */
  lemma LowerCharAgrees(c: char, d: char)
    ensures LowerChar(c) == LowerChar(d) <==> CaseVariant(c, d)
  {
  }

  /** The normal keys are exactly the fixed points of `GetKey`. */
  lemma GetKeyFixesNormalKeys(key: string)
    ensures GetKey(key) == key <==> IsNormalKey(key)
  {
  }

  /** Lower-casing twice targets the same key as lower-casing once. */
  lemma GetKeyIdempotent(key: string)
    ensures GetKey(GetKey(key)) == GetKey(key)
  {
  }

  /** Two keys map to the same store key exactly when they differ only in
      letter case. */
  lemma {:induction false} GetKeyCaseInsensitive(a: string, b: string)
    ensures GetKey(a) == GetKey(b) <==> SameIgnoringCase(a, b)
  {
    if GetKey(a) == GetKey(b) {
      forall i | 0 <= i < |a|
        ensures CaseVariant(a[i], b[i])
      {
        assert GetKey(a)[i] == GetKey(b)[i];
        LowerCharAgrees(a[i], b[i]);
      }
    }
    if SameIgnoringCase(a, b) {
      forall i | 0 <= i < |a|
        ensures GetKey(a)[i] == GetKey(b)[i]
      {
        LowerCharAgrees(a[i], b[i]);
      }
    }
  }
}
