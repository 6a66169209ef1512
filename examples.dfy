// Concrete comparisons: the call made by the program's entry point and a
// few characteristic cases (a difference late in the string, a shared NUL
// ahead of differing bytes).
module BoundedCompareExamples {
  import opened BoundedCompare
  import opened BoundedCompareProperties

  /** The bytes of a C string literal holding ASCII text: its characters and the NUL after them. */
  function CString(s: string): (r: seq<CChar>)
    requires forall i :: 0 <= i < |s| ==> s[i] as int < 128
    ensures |r| == |s| + 1 && r[|s|] == NUL
    ensures forall i :: 0 <= i < |s| ==> r[i] == s[i] as int
  {
    seq(|s|, i requires 0 <= i < |s| => s[i] as int as CChar) + [NUL]
  }

  /**
   * The entry point's call strncmp("fred", "bob", 5): the result is
   * 'f' - 'b', positive, and only position 0 of either buffer is read.
   */
  lemma FredBob()
    ensures Readable(CString("fred"), CString("bob"), 5)
    ensures Compare(CString("fred"), CString("bob"), 5) == 'f' as int - 'b' as int > 0
    ensures Readable(CString("fred")[..1], CString("bob")[..1], 5)
  {
    var a, b := CString("fred"), CString("bob");
    assert FirstDifferenceAt(a, b, 5, 0);
    DifferenceDecides(a, b, 5, 0);
    assert FirstDifferenceAt(a[..1], b[..1], 5, 0);
    DifferenceDecides(a[..1], b[..1], 5, 0);
  }

  /** The same call, made on buffers through the routine itself. */
  method FredBobCall() returns (r: int)
    ensures r == 'f' as int - 'b' as int
  {
    var fred := new CChar[5];
    fred[0], fred[1], fred[2], fred[3], fred[4] := 'f' as int, 'r' as int, 'e' as int, 'd' as int, NUL;
    var bob := new CChar[4];
    bob[0], bob[1], bob[2], bob[3] := 'b' as int, 'o' as int, 'b' as int, NUL;
    assert FirstDifferenceAt(fred[..], bob[..], 5, 0);
    DifferenceDecides(fred[..], bob[..], 5, 0);
    r := StrNCmp(fred, bob, 5);
  }

  /** "abc" against "abd" over 3 characters: they first differ at position 2, so the result is 'c' - 'd'. */
  lemma AbcAbd()
    ensures Readable(CString("abc"), CString("abd"), 3)
    ensures Compare(CString("abc"), CString("abd"), 3) == 'c' as int - 'd' as int < 0
  {
    var a, b := CString("abc"), CString("abd");
    assert FirstDifferenceAt(a, b, 3, 2);
    DifferenceDecides(a, b, 3, 2);
  }

  /** "ab\0x" against "ab\0y" over 4 characters: the shared NUL at position 2 ends the scan with 0. */
  lemma SharedNulStops()
    ensures Readable(CString("ab\0x"), CString("ab\0y"), 4)
    ensures Compare(CString("ab\0x"), CString("ab\0y"), 4) == 0
  {
    var a, b := CString("ab\0x"), CString("ab\0y");
    assert SharedEndAt(a, b, 2);
    ZeroIffMatch(a, b, 4);
  }
}
