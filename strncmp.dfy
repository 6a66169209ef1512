// A bounded string comparison in the style of C's strncmp: compare two
// NUL-terminated character buffers, looking at no more than n positions.
//
// Plain C `char` is modelled as SIGNED (values -128..127), so a comparison
// of characters and the difference of two characters are taken on signed
// values.
module BoundedCompare {

  /** A plain C `char`, taken to be signed. */
  type CChar = c: int | -128 <= c <= 127

  /** The terminating zero character of a C string. */
  const NUL: CChar := 0

  /** The scan stops at position i: both strings end there, or they differ there. */
  predicate StopsAt(a: seq<CChar>, b: seq<CChar>, i: nat)
    requires i < |a| && i < |b|
  {
    (a[i] == NUL && b[i] == NUL) || a[i] != b[i]
  }

  /**
   * Every position that a scan starting at i (and bounded by n) reads lies
   * inside both buffers. This stands in for the pointer validity that the C
   * routine leaves to its callers.
   */
  predicate ReadableFrom(a: seq<CChar>, b: seq<CChar>, n: nat, i: nat)
    decreases n - i
  {
    i >= n || (i < |a| && i < |b| && (StopsAt(a, b, i) || ReadableFrom(a, b, n, i + 1)))
  }

  predicate Readable(a: seq<CChar>, b: seq<CChar>, n: nat)
  {
    ReadableFrom(a, b, n, 0)
  }

  /**
   * The value the comparison produces once it has reached position i
   * with no decision yet. The result is a difference of two characters,
   * so it never leaves [-255, 255].
   */
  function CompareFrom(a: seq<CChar>, b: seq<CChar>, n: nat, i: nat): (r: int)
    requires ReadableFrom(a, b, n, i)
    ensures -255 <= r <= 255
    decreases n - i
  {
    if i >= n then 0
    else if a[i] == NUL && b[i] == NUL then 0
    else if a[i] != b[i] then a[i] as int - b[i] as int
    else CompareFrom(a, b, n, i + 1)
  }

  /** The result of comparing at most n characters of a and b. */
  function Compare(a: seq<CChar>, b: seq<CChar>, n: nat): (r: int)
    requires Readable(a, b, n)
  {
    CompareFrom(a, b, n, 0)
  }

  /**
   * The C routine: a loop over index 0 .. cmpLen-1 that stops with 0 at a
   * shared NUL and returns the difference of the first pair of characters
   * that differ.
   */
  method StrNCmp(str1: array<CChar>, str2: array<CChar>, cmpLen: nat) returns (r: int)
    requires Readable(str1[..], str2[..], cmpLen)
    ensures r == Compare(str1[..], str2[..], cmpLen)
  {
    var index := 0;
    while index < cmpLen
      invariant index <= cmpLen
      invariant ReadableFrom(str1[..], str2[..], cmpLen, index)
      invariant CompareFrom(str1[..], str2[..], cmpLen, index) == Compare(str1[..], str2[..], cmpLen)
    {
      var str1Char := str1[index];
      var str2Char := str2[index];
      if str1Char == NUL && str2Char == NUL {
        break;
      }
      if str1Char != str2Char {
        return str1Char as int - str2Char as int;  // both promoted to int, as in C
      }
      index := index + 1;
    }
    return 0;
  }
}
