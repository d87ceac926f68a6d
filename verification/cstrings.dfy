/** The two C-library string primitives the modelled drivers rely on: the
    kernel's `tolower` (lib/ctype.c, which also folds the Latin-1 upper-case
    letters) and `strncasecmp(a, b, n) == 0`.

    A C string is modelled as the `seq<char>` of its characters before the
    terminating NUL, so no element of a modelled string is `'\0'`; every
    character is one byte, i.e. below 256.
 */
module CStrings {

  /** `isupper` of the kernel's ctype table: ASCII A-Z and the Latin-1
      capitals 0xC0-0xDE except the multiplication sign 0xD7. */
  predicate IsUpper(c: char)
  {
    ('A' <= c <= 'Z') || ('À' <= c <= 'Þ' && c != '×')
  }

  function ToLower(c: char): (l: char)
    ensures IsUpper(c) ==> l as int == c as int + 32
    ensures !IsUpper(c) ==> l == c
    ensures l == '\0' <==> c == '\0'
  {
    if IsUpper(c) then (c as int + 32) as char else c
  }

  /** The first `n` characters of `s`, or all of it when it is shorter. */
  function Take(s: string, n: nat): (t: string)
    ensures |t| == Min(n, |s|)
    ensures t == s[..|t|]
  {
    if |s| <= n then s else s[..n]
  }

  function Min(a: nat, b: nat): nat { if a <= b then a else b }

  /** Declarative meaning of a case-insensitive comparison of the first `n`
      characters: both strings, cut to `n`, have the same length and agree
      character by character after lowering. */
  ghost predicate CaseEqualUpTo(a: string, b: string, n: nat)
  {
    |Take(a, n)| == |Take(b, n)| &&
    forall i :: 0 <= i < |Take(a, n)| ==> ToLower(a[i]) == ToLower(b[i])
  }

  predicate NoNul(s: string)
  {
    forall i :: 0 <= i < |s| ==> s[i] != '\0'
  }

  /** `strncasecmp(a, b, n) == 0`, step by step as lib/string.c does it: at
      most `n` rounds; a round reads one character of each side (the
      terminator once a side is exhausted), fails on a difference after
      lowering, and stops early when both sides end together. */
  function StrNCaseEqual(a: string, b: string, n: nat): (r: bool)
    requires NoNul(a) && NoNul(b)
  {
    if n == 0 then true
    else if |a| == 0 || |b| == 0 then |a| == 0 && |b| == 0
    else ToLower(a[0]) == ToLower(b[0]) && StrNCaseEqual(a[1..], b[1..], n - 1)
  }

  /** The character loop decides exactly the declarative comparison. */
  lemma {:induction false} StrNCaseEqualMeaning(a: string, b: string, n: nat)
    requires NoNul(a) && NoNul(b)
    ensures StrNCaseEqual(a, b, n) <==> CaseEqualUpTo(a, b, n)
    decreases n
  {
    if n == 0 {
    } else if |a| == 0 || |b| == 0 {
      if |a| != 0 {
        assert |Take(a, n)| >= 1;
      } else if |b| != 0 {
        assert |Take(b, n)| >= 1;
      }
    } else {
      StrNCaseEqualMeaning(a[1..], b[1..], n - 1);
      assert Take(a, n)[1..] == Take(a[1..], n - 1);
      assert Take(b, n)[1..] == Take(b[1..], n - 1);
      if CaseEqualUpTo(a[1..], b[1..], n - 1) && ToLower(a[0]) == ToLower(b[0]) {
        forall i | 0 <= i < |Take(a, n)|
          ensures ToLower(a[i]) == ToLower(b[i])
        {
          if i > 0 {
            assert a[1..][i - 1] == a[i];
            assert b[1..][i - 1] == b[i];
          }
        }
      }
      if CaseEqualUpTo(a, b, n) {
        forall i | 0 <= i < |Take(a[1..], n - 1)|
          ensures ToLower(a[1..][i]) == ToLower(b[1..][i])
        {
          assert ToLower(a[i + 1]) == ToLower(b[i + 1]);
        }
      }
    }
  }

  /** Index of the first `c` in `s`, if any (`strchr`-style scan). */
  function FirstIndexOf(s: string, c: char): (r: nat)
    ensures r <= |s|
    ensures r < |s| ==> s[r] == c
    ensures forall i :: 0 <= i < r ==> s[i] != c
  {
    if |s| == 0 then 0
    else if s[0] == c then 0
    else 1 + FirstIndexOf(s[1..], c)
  }
}
