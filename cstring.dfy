/** The C library's `strcmp` on process names, as `sort_by_name` uses it.
    A Dafny string stands for the bytes of a C name: each character is one
    byte, compared as an unsigned value, and the end of the sequence plays the
    part of the terminating NUL. */
module CString {

  /** The byte `strcmp` reads at offset i: past the end it reads the NUL. */
  function ByteAt(s: string, i: nat): (c: int)
    ensures 0 <= c
    ensures c == 0 <==> i >= |s| || s[i] == '\0'
  {
    if i < |s| then s[i] as int else 0
  }

  /** `strcmp(a, b)`: the difference of the first differing bytes, or 0 when
      the strings agree up to and including a NUL. Only its sign is used. */
  function StrCmp(a: string, b: string): (r: int)
    ensures a == b ==> r == 0
    decreases |a|
  {
    var c1 := ByteAt(a, 0);
    var c2 := ByteAt(b, 0);
    if c1 != c2 then c1 - c2
    else if c1 == 0 then 0
    else StrCmp(a[1..], b[1..])
  }

  /** A name as it can sit in a C `char[]`: no NUL byte inside it. */
  predicate NulFree(s: string)
  {
    forall i :: 0 <= i < |s| ==> s[i] != '\0'
  }

  /** `a` sorts at or before `b` under `strcmp`. */
  predicate NameLe(a: string, b: string)
  {
    StrCmp(a, b) <= 0
  }

  /** Swapping the arguments of `strcmp` flips the sign of its result. */
  lemma {:induction false} StrCmpAntisymmetric(a: string, b: string)
    ensures StrCmp(b, a) == -StrCmp(a, b)
    decreases |a|
  {
    if ByteAt(a, 0) == ByteAt(b, 0) && ByteAt(a, 0) != 0 {
      StrCmpAntisymmetric(a[1..], b[1..]);
    }
  }

  /** Any two names are ordered one way or the other: after a swap made
      because `strcmp(a, b) > 0`, the pair stands in `NameLe` order. */
  lemma StrCmpTotal(a: string, b: string)
    ensures NameLe(a, b) || NameLe(b, a)
  {
    StrCmpAntisymmetric(a, b);
  }

  /** `NameLe` is transitive. */
  lemma {:induction false} StrCmpTransitive(a: string, b: string, c: string)
    requires NameLe(a, b) && NameLe(b, c)
    ensures NameLe(a, c)
    decreases |a|
  {
    var x, y, z := ByteAt(a, 0), ByteAt(b, 0), ByteAt(c, 0);
    if x == y && y == z && x != 0 {
      StrCmpTransitive(a[1..], b[1..], c[1..]);
    }
  }

  /** Lexicographic order on bytes, stated without `strcmp`: `a` is a prefix
      of `b`, or both agree up to a position where `a` has the smaller byte. */
  ghost predicate LexLe(a: string, b: string)
  {
    || (|a| <= |b| && a == b[..|a|])
    || exists k :: 0 <= k < |a| && k < |b| && a[..k] == b[..k] && a[k] < b[k]
  }

  /** On NUL-free names, `strcmp` decides exactly the lexicographic byte order. */
  lemma {:induction false} StrCmpIsLexicographic(a: string, b: string)
    requires NulFree(a) && NulFree(b)
    ensures NameLe(a, b) <==> LexLe(a, b)
    decreases |a|
  {
    if |a| == 0 {
      assert a == b[..0];
    } else if |b| == 0 {
      assert ByteAt(a, 0) > 0;
      assert !LexLe(a, b);
    } else if a[0] < b[0] {
      assert a[..0] == b[..0];
    } else if a[0] > b[0] {
      assert ByteAt(a, 0) > ByteAt(b, 0);
    } else {
      StrCmpIsLexicographic(a[1..], b[1..]);
      assert StrCmp(a, b) == StrCmp(a[1..], b[1..]);
      LexLeCons(a, b);
    }
  }

  /** Past an equal first byte, the lexicographic order is that of the rests. */
  lemma LexLeCons(a: string, b: string)
    requires |a| > 0 && |b| > 0 && a[0] == b[0]
    ensures LexLe(a, b) <==> LexLe(a[1..], b[1..])
  {
    var a', b' := a[1..], b[1..];
    if LexLe(a', b') {
      if |a'| <= |b'| && a' == b'[..|a'|] {
        assert a == b[..|a|];
      } else {
        var k :| 0 <= k < |a'| && k < |b'| && a'[..k] == b'[..k] && a'[k] < b'[k];
        assert a[..k + 1] == [a[0]] + a'[..k] == [b[0]] + b'[..k] == b[..k + 1];
        assert a[k + 1] < b[k + 1];
      }
    }
    if LexLe(a, b) {
      if |a| <= |b| && a == b[..|a|] {
        assert a' == b'[..|a'|];
      } else {
        var k :| 0 <= k < |a| && k < |b| && a[..k] == b[..k] && a[k] < b[k];
        assert k > 0;
        assert a'[..k - 1] == a[..k][1..] == b[..k][1..] == b'[..k - 1];
        assert a'[k - 1] < b'[k - 1];
      }
    }
  }

  /** On NUL-free names `strcmp` returns 0 exactly for equal strings. */
  lemma {:induction false} StrCmpZeroIffEqual(a: string, b: string)
    requires NulFree(a) && NulFree(b)
    ensures StrCmp(a, b) == 0 <==> a == b
    decreases |a|
  {
    if |a| > 0 && |b| > 0 && a[0] == b[0] {
      StrCmpZeroIffEqual(a[1..], b[1..]);
      if a[1..] == b[1..] { assert a == [a[0]] + a[1..] && b == [b[0]] + b[1..]; }
    } else if |a| > 0 && |b| > 0 {
    } else if |a| > 0 {
      assert ByteAt(a, 0) != 0;
    } else if |b| > 0 {
      assert ByteAt(b, 0) != 0;
    }
  }
}
