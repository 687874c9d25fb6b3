/** src/util.rs: filtering a string down to a set of characters. */
module Util {

  /** `keep_characters`: the characters of `original` that occur in `toKeep`,
      in their original order. */
  function KeepCharacters(original: string, toKeep: string): (r: string)
    ensures |r| <= |original|
    ensures forall i :: 0 <= i < |r| ==> r[i] in toKeep
  {
    if original == [] then []
    else (if original[0] in toKeep then [original[0]] else []) + KeepCharacters(original[1..], toKeep)
  }

  /** `t` can be obtained from `s` by deleting characters. */
  predicate IsSubsequence(t: string, s: string)
  {
    if t == [] then true
    else if s == [] then false
    else (t[0] == s[0] && IsSubsequence(t[1..], s[1..])) || IsSubsequence(t, s[1..])
  }

  /** The result is a subsequence of the original string. */
  lemma {:induction false} KeepCharactersIsSubsequence(original: string, toKeep: string)
    ensures IsSubsequence(KeepCharacters(original, toKeep), original)
  {
    if original != [] {
      KeepCharactersIsSubsequence(original[1..], toKeep);
      var rest := KeepCharacters(original[1..], toKeep);
      if original[0] in toKeep {
        assert ([original[0]] + rest)[1..] == rest;
      } else {
        assert KeepCharacters(original, toKeep) == rest;
      }
    }
  }

  /** Maximality: every subsequence of `original` made only of kept characters is a
      subsequence of the result. With KeepCharactersIsSubsequence this pins the
      result down uniquely. */
  lemma {:induction false} KeepCharactersMaximal(t: string, original: string, toKeep: string)
    requires IsSubsequence(t, original)
    requires forall i :: 0 <= i < |t| ==> t[i] in toKeep
    ensures IsSubsequence(t, KeepCharacters(original, toKeep))
  {
    if t != [] {
      var rest := KeepCharacters(original[1..], toKeep);
      if t[0] == original[0] && IsSubsequence(t[1..], original[1..]) {
        KeepCharactersMaximal(t[1..], original[1..], toKeep);
        assert KeepCharacters(original, toKeep) == [original[0]] + rest;
        assert ([original[0]] + rest)[1..] == rest;
      } else {
        KeepCharactersMaximal(t, original[1..], toKeep);
        if original[0] in toKeep {
          assert KeepCharacters(original, toKeep) == [original[0]] + rest;
          assert ([original[0]] + rest)[1..] == rest;
        } else {
          assert KeepCharacters(original, toKeep) == rest;
        }
      }
    }
  }

  /** A character survives iff it occurs in the original and is one to keep. */
  lemma {:induction false} KeepCharactersMembership(original: string, toKeep: string, c: char)
    ensures c in KeepCharacters(original, toKeep) <==> c in original && c in toKeep
  {
    if original != [] {
      KeepCharactersMembership(original[1..], toKeep, c);
      assert original == [original[0]] + original[1..];
    }
  }

  /** Filtering distributes over concatenation. */
  lemma {:induction false} KeepCharactersAppend(a: string, b: string, toKeep: string)
    ensures KeepCharacters(a + b, toKeep) == KeepCharacters(a, toKeep) + KeepCharacters(b, toKeep)
  {
    if a != [] {
      assert (a + b)[1..] == a[1..] + b;
      KeepCharactersAppend(a[1..], b, toKeep);
    } else {
      assert a + b == b;
    }
  }

  /** A string made only of kept characters is returned unchanged. */
  lemma {:induction false} KeepCharactersIdentity(original: string, toKeep: string)
    requires forall i :: 0 <= i < |original| ==> original[i] in toKeep
    ensures KeepCharacters(original, toKeep) == original
  {
    if original != [] {
      KeepCharactersIdentity(original[1..], toKeep);
    }
  }

  /** Applying the filter twice with the same characters changes nothing. */
  lemma KeepCharactersIdempotent(original: string, toKeep: string)
    ensures KeepCharacters(KeepCharacters(original, toKeep), toKeep) == KeepCharacters(original, toKeep)
  {
    KeepCharactersIdentity(KeepCharacters(original, toKeep), toKeep);
  }

  /** The digit test of src/util.rs. */
  lemma KeepCharactersDigitExample()
    ensures KeepCharacters("85abc22", "0123456789") == "8522"
  {
  }
}
