# Bounded string comparison (`strncmp`)

This project models the repository's reimplementation of the C library
routine `strncmp` (section 7.24.4.4 of ISO/IEC 9899:2011, "The strncmp
function"), in `FGrep/Test/folder2/Code/strncmp.c`. The routine scans
positions `0 .. cmpLen-1` of two character buffers. It stops with 0 at a
position where both buffers hold NUL, and it returns `str1[i] - str2[i]` at
the first position where they differ. If it does neither within the bound, it
returns 0.

Modelling choices:

- Plain C `char` is taken to be **signed**: `CChar` is the range -128..127.
  Character order and the returned difference are both taken on signed
  values, so every result lies in [-255, 255].
- The C routine does not guard its pointers. The model puts the guard in the
  precondition `Readable(a, b, n)`: every position the scan reaches lies inside
  both buffers. This is weaker than `n <= |a| && n <= |b|` (`WithinBuffersReadable`),
  and any two NUL-terminated buffers meet it (`TerminatedReadable`). The entry point's
  own call `strncmp("fred", "bob", 5)` passes a 4-byte buffer with bound 5,
  and it is within `Readable`.
- `index` and `cmpLen` are natural numbers. The method `StrNCmp` reads two
  `array<CChar>` buffers (the `const char*` arguments) with the same loop,
  `break` and early `return` as the C code. It is proved equal to the
  recursive specification `Compare` (`CompareFrom` from a given position).
- `BoundedEqual`, `BoundedLess` and `FirstDifferenceAt` define, without
  recursion, what "the strings match within n characters", "a orders before b"
  and "the first difference" mean. The lemmas tie `Compare` to them.

Files: `strncmp.dfy` (module `BoundedCompare`: the type, the specification
and the routine), `properties.dfy` (module `BoundedCompareProperties`),
`examples.dfy` (module `BoundedCompareExamples`).

Two contrasts are worth noting:

- Section 7.24.4.4 of ISO/IEC 9899:2011 compares characters as `unsigned
  char`. This code compares plain `char`, modelled here as signed (see
  "## Left out").
- The doc comment at `strncmp.c:3` promises only the sign of the result.
  The code negates the result exactly when the arguments are swapped, and
  `Antisymmetric` proves that exact negation.

## Model

| member | source | states |
|---|---|---|
| `BoundedCompare.StrNCmp` | FGrep/Test/folder2/Code/strncmp.c:4-23 | the loop returns exactly the specified comparison result for every pair of buffers readable up to where the scan stops |
| `BoundedCompare.CompareFrom` | FGrep/Test/folder2/Code/strncmp.c:11-22 | the result of the scan is a difference of two signed chars, so it lies in [-255, 255] |
| `BoundedCompareProperties.TerminatedReadable` | FGrep/Test/folder2/Code/strncmp.c:6-14 | two buffers that each contain a NUL satisfy the readability precondition under every bound, so ordinary C strings always meet it |
| `BoundedCompareProperties.WithinBuffersReadable` | FGrep/Test/folder2/Code/strncmp.c:6-14 | a bound no larger than either buffer satisfies the readability precondition, so `Readable` never asks more than a bound within both buffer lengths |
| `BoundedCompareProperties.ZeroBound` | FGrep/Test/folder2/Code/strncmp.c:12-22 | with bound 0 nothing has to be readable (even empty buffers qualify) and the result is 0 |
| `BoundedCompareProperties.Reflexive` | FGrep/Test/folder2/Code/strncmp.c:12-22 | a string compared with itself gives 0 |
| `BoundedCompareProperties.Antisymmetric` | FGrep/Test/folder2/Code/strncmp.c:15-19 | swapping the arguments reads the same positions and negates the result exactly |
| `BoundedCompareProperties.FirstDifference` | FGrep/Test/folder2/Code/strncmp.c:12-20 | a nonzero result equals a[i] - b[i] at a position i below n where the strings differ, and every earlier pair is equal and not NUL |
| `BoundedCompareProperties.DifferenceDecides` | FGrep/Test/folder2/Code/strncmp.c:12-20 | conversely, such a first difference at i makes the buffers readable for the scan and fixes the result to a[i] - b[i] |
| `BoundedCompareProperties.ZeroIffMatch` | FGrep/Test/folder2/Code/strncmp.c:12-22 | the result is 0 exactly when the strings agree on all n positions, or agree up to a position below n where both are NUL |
| `BoundedCompareProperties.OnlyWindowMatters` | FGrep/Test/folder2/Code/strncmp.c:12-21 | extending the buffers beyond what the scan reads changes neither readability nor the result |
| `BoundedCompareProperties.SharedEndHidesRest` | FGrep/Test/folder2/Code/strncmp.c:15-16 | after a shared NUL below the bound, any continuation of either buffer compares equal |
| `BoundedCompareProperties.SignMatchesOrder` | FGrep/Test/folder2/Code/strncmp.c:1-3 | the result is negative exactly when str1 orders first, positive exactly when str2 orders first, and 0 exactly on a match, ordering by the first differing signed character |
| `BoundedCompareProperties.BoundedLessTransitive` | FGrep/Test/folder2/Code/strncmp.c:3 | the order the sign reports is transitive |
| `BoundedCompareExamples.FredBob` | FGrep/Test/folder2/Code/strncmp.c:28 | `strncmp("fred", "bob", 5)` is 'f' - 'b' > 0, and only position 0 of each buffer needs to be readable |
| `BoundedCompareExamples.FredBobCall` | FGrep/Test/folder2/Code/strncmp.c:25-30 | running the routine on the entry point's buffers returns 'f' - 'b' |
| `BoundedCompareExamples.AbcAbd` | FGrep/Test/folder2/Code/strncmp.c:18-19 | "abc" against "abd" with bound 3 gives 'c' - 'd' < 0 |
| `BoundedCompareExamples.SharedNulStops` | FGrep/Test/folder2/Code/strncmp.c:15-16 | "ab\0x" against "ab\0y" with bound 4 gives 0 |

## Left out

- `main` as a program: its one call, with its result discarded, is kept only as the examples `FredBob` and `FredBobCall`.
- Null and invalid pointers: the C code leaves them undefined. The precondition `Readable` stands in for the missing check.
- The comparison of the signed `int index` against the `unsigned int cmpLen` and other C integer conversions: both are natural numbers here. The result cannot overflow, since it stays within [-255, 255]. The signed overflow of `index`, when `cmpLen` exceeds INT_MAX and more than INT_MAX characters agree, is not modelled: the index is unbounded here.
- Unsigned `char` platforms, and agreement with the C library's `unsigned char` comparison for characters of 128 and above: only signed `char` is modelled.
