/**
 * The C string facts the list exercises rely on: a `char*` holds the
 * characters before its first NUL, and `strcmp` orders strings
 * lexicographically by character code, a proper prefix first.
 */
module CStrings {
  import opened Wrappers

  /** The NUL character that terminates a C string. */
  const Nul: char := 0 as char

  /** strlen: the index of the first NUL, or the whole length when there is none. */
  function Strlen(s: string): (n: nat)
    ensures n <= |s|
    ensures Nul !in s[..n]
    ensures n < |s| ==> s[n] == Nul
  {
    if s == [] || s[0] == Nul then 0 else 1 + Strlen(s[1..])
  }

  /** The characters a `char*` pointing at `s` denotes. */
  function CString(s: string): (c: string)
    ensures Nul !in c
    ensures c <= s
  {
    s[..Strlen(s)]
  }

  /** A string without NUL is its own C string, so reading a C string is idempotent. */
  lemma {:induction false} CStringOfNulFree(s: string)
    requires Nul !in s
    ensures CString(s) == s
    ensures Strlen(s) == |s|
  {
    if s != [] {
      assert Nul !in s[1..];
      CStringOfNulFree(s[1..]);
    }
  }

  /**
   * strdupp (node.h) and safe_strdup (Resort.c): NULL gives NULL, otherwise
   * a fresh buffer holding the same C string.
   */
  function Strdup(value: Option<string>): (r: Option<string>)
    ensures r.None? <==> value.None?
    ensures r.Some? ==> Nul !in r.value && r.value <= value.value
    ensures r.Some? && Nul !in value.value ==> r.value == value.value
  {
    if value.None? then None
    else
      CStringOfNulFreeWhen(value.value);
      Some(CString(value.value))
  }

  lemma CStringOfNulFreeWhen(s: string)
    ensures Nul !in s ==> CString(s) == s
  {
    if Nul !in s {
      CStringOfNulFree(s);
    }
  }

  /** The sign of strcmp(a, b): negative, zero or positive. */
  function Compare(a: string, b: string): (c: int)
    ensures -1 <= c <= 1
  {
    if a == [] && b == [] then 0
    else if a == [] then -1
    else if b == [] then 1
    else if a[0] < b[0] then -1
    else if a[0] > b[0] then 1
    else Compare(a[1..], b[1..])
  }

  /** strcmp returns 0 exactly on equal strings. */
  lemma {:induction false} CompareZeroIffEqual(a: string, b: string)
    ensures Compare(a, b) == 0 <==> a == b
  {
    if a != [] && b != [] && a[0] == b[0] {
      CompareZeroIffEqual(a[1..], b[1..]);
      assert a == [a[0]] + a[1..] && b == [b[0]] + b[1..];
    }
  }

  /** Swapping the arguments of strcmp flips the sign. */
  lemma {:induction false} CompareAntisymmetric(a: string, b: string)
    ensures Compare(b, a) == -Compare(a, b)
  {
    if a != [] && b != [] && a[0] == b[0] {
      CompareAntisymmetric(a[1..], b[1..]);
    }
  }

  /** The order strcmp induces is transitive. */
  lemma {:induction false} CompareTransitive(a: string, b: string, c: string)
    requires Compare(a, b) <= 0 && Compare(b, c) <= 0
    ensures Compare(a, c) <= 0
  {
    if a != [] && b != [] && c != [] && a[0] == b[0] == c[0] {
      CompareTransitive(a[1..], b[1..], c[1..]);
    }
  }

  /** Strictness carries through the order as well. */
  lemma CompareStrictTransitive(a: string, b: string, c: string)
    requires Compare(a, b) <= 0 && Compare(b, c) < 0
    ensures Compare(a, c) < 0
  {
    CompareTransitive(a, b, c);
    if Compare(a, c) == 0 {
      CompareZeroIffEqual(a, c);
      CompareAntisymmetric(b, c);
      CompareZeroIffEqual(a, b);
    }
  }

  /** A proper prefix sorts first. */
  lemma {:induction false} PrefixSortsFirst(a: string, b: string)
    requires a < b
    ensures Compare(a, b) < 0
  {
    if a != [] {
      assert a[1..] < b[1..];
      PrefixSortsFirst(a[1..], b[1..]);
    }
  }
}
