// What the comparison promises: the result is 0 exactly when the strings
// match within the bound, its sign gives their (bounded, lexicographic) order,
// it is the difference of the first differing pair, and it depends on
// nothing the scan does not read.
module BoundedCompareProperties {
  import opened BoundedCompare

  /** The first k characters of a and b exist, are equal, and none of them is NUL. */
  ghost predicate AgreeBefore(a: seq<CChar>, b: seq<CChar>, k: nat)
  {
    k <= |a| && k <= |b| && forall j :: 0 <= j < k ==> a[j] == b[j] && a[j] != NUL
  }

  /** Both strings end at position k, and they agree before it. */
  ghost predicate SharedEndAt(a: seq<CChar>, b: seq<CChar>, k: nat)
  {
    AgreeBefore(a, b, k) && k < |a| && k < |b| && a[k] == NUL && b[k] == NUL
  }

  /**
   * The strings "match" within the bound n: they agree on all n positions,
   * or they agree up to a position below n where both end.
   */
  ghost predicate BoundedEqual(a: seq<CChar>, b: seq<CChar>, n: nat)
  {
    AgreeBefore(a, b, n) || exists k :: 0 <= k < n && SharedEndAt(a, b, k)
  }

  /** Position i is the first, below n, where a and b differ. */
  ghost predicate FirstDifferenceAt(a: seq<CChar>, b: seq<CChar>, n: nat, i: nat)
  {
    i < n && AgreeBefore(a, b, i) && i < |a| && i < |b| && a[i] != b[i]
  }

  /**
   * a orders before b within the bound n: at the first position where they
   * differ, a holds the smaller (signed) character.
   */
  ghost predicate BoundedLess(a: seq<CChar>, b: seq<CChar>, n: nat)
  {
    exists i :: 0 <= i < n && FirstDifferenceAt(a, b, n, i) && a[i] < b[i]
  }

  // ---------------------------------------------------------------------
  // Bound zero

  /** With a bound of zero, nothing needs to be readable and the result is 0. */
  lemma ZeroBound(a: seq<CChar>, b: seq<CChar>)
    ensures Readable(a, b, 0) && Compare(a, b, 0) == 0
  {
  }

  // ---------------------------------------------------------------------
  // Ordinary callers meet the readability precondition

  lemma {:induction false} TerminatedReadableFrom(a: seq<CChar>, b: seq<CChar>, n: nat, i: nat, ea: nat, eb: nat)
    requires i <= ea < |a| && a[ea] == NUL
    requires i <= eb < |b| && b[eb] == NUL
    ensures ReadableFrom(a, b, n, i)
    decreases ea - i
  {
    if i < n && !StopsAt(a, b, i) {
      TerminatedReadableFrom(a, b, n, i + 1, ea, eb);
    }
  }

  /** Two buffers that each hold a NUL terminator are readable under every bound. */
  lemma TerminatedReadable(a: seq<CChar>, b: seq<CChar>, n: nat)
    requires NUL in a && NUL in b
    ensures Readable(a, b, n)
  {
    var ea :| 0 <= ea < |a| && a[ea] == NUL;
    var eb :| 0 <= eb < |b| && b[eb] == NUL;
    TerminatedReadableFrom(a, b, n, 0, ea, eb);
  }

  lemma {:induction false} WithinBuffersReadableFrom(a: seq<CChar>, b: seq<CChar>, n: nat, i: nat)
    requires n <= |a| && n <= |b|
    ensures ReadableFrom(a, b, n, i)
    decreases n - i
  {
    if i < n {
      WithinBuffersReadableFrom(a, b, n, i + 1);
    }
  }

  /** A bound that fits inside both buffers is always readable, NUL or not. */
  lemma WithinBuffersReadable(a: seq<CChar>, b: seq<CChar>, n: nat)
    requires n <= |a| && n <= |b|
    ensures Readable(a, b, n)
  {
    WithinBuffersReadableFrom(a, b, n, 0);
  }

  // ---------------------------------------------------------------------
  // Reflexivity

  lemma {:induction false} ReflexiveFrom(a: seq<CChar>, n: nat, i: nat)
    requires ReadableFrom(a, a, n, i)
    ensures CompareFrom(a, a, n, i) == 0
    decreases n - i
  {
    if i < n && a[i] != NUL {
      ReflexiveFrom(a, n, i + 1);
    }
  }

  /** A string compared with itself gives 0 under any bound its buffer allows. */
  lemma Reflexive(a: seq<CChar>, n: nat)
    requires Readable(a, a, n)
    ensures Compare(a, a, n) == 0
  {
    ReflexiveFrom(a, n, 0);
  }

  // ---------------------------------------------------------------------
  // Antisymmetry

  lemma {:induction false} AntisymmetricFrom(a: seq<CChar>, b: seq<CChar>, n: nat, i: nat)
    requires ReadableFrom(a, b, n, i)
    ensures ReadableFrom(b, a, n, i)
    ensures CompareFrom(b, a, n, i) == -CompareFrom(a, b, n, i)
    decreases n - i
  {
    if i < n && !StopsAt(a, b, i) {
      AntisymmetricFrom(a, b, n, i + 1);
    }
  }

  /** Swapping the arguments reads the same positions and exactly negates the result. */
  lemma Antisymmetric(a: seq<CChar>, b: seq<CChar>, n: nat)
    requires Readable(a, b, n)
    ensures Readable(b, a, n)
    ensures Compare(b, a, n) == -Compare(a, b, n)
  {
    AntisymmetricFrom(a, b, n, 0);
  }

  // ---------------------------------------------------------------------
  // A nonzero result is the difference at the first differing position

  lemma {:induction false} FirstDifferenceFrom(a: seq<CChar>, b: seq<CChar>, n: nat, k: nat) returns (i: nat)
    requires AgreeBefore(a, b, k)
    requires ReadableFrom(a, b, n, k)
    requires CompareFrom(a, b, n, k) != 0
    ensures FirstDifferenceAt(a, b, n, i)
    ensures CompareFrom(a, b, n, k) == a[i] as int - b[i] as int
    decreases n - k
  {
    if a[k] != b[k] {
      i := k;
    } else {
      i := FirstDifferenceFrom(a, b, n, k + 1);
    }
  }

  /**
   * A nonzero result comes from a first position i below n where the strings
   * differ: every earlier pair is equal and not NUL, and the result is a[i] - b[i].
   */
  lemma FirstDifference(a: seq<CChar>, b: seq<CChar>, n: nat) returns (i: nat)
    requires Readable(a, b, n)
    requires Compare(a, b, n) != 0
    ensures FirstDifferenceAt(a, b, n, i)
    ensures Compare(a, b, n) == a[i] as int - b[i] as int
  {
    i := FirstDifferenceFrom(a, b, n, 0);
  }

  lemma {:induction false} DifferenceDecidesFrom(a: seq<CChar>, b: seq<CChar>, n: nat, i: nat, k: nat)
    requires FirstDifferenceAt(a, b, n, i)
    requires k <= i
    ensures ReadableFrom(a, b, n, k)
    ensures CompareFrom(a, b, n, k) == a[i] as int - b[i] as int
    decreases i - k
  {
    if k < i {
      DifferenceDecidesFrom(a, b, n, i, k + 1);
    }
  }

  /**
   * Conversely, a first difference at i below n is all the scan needs to
   * read, and it fixes the result to a[i] - b[i].
   */
  lemma DifferenceDecides(a: seq<CChar>, b: seq<CChar>, n: nat, i: nat)
    requires FirstDifferenceAt(a, b, n, i)
    ensures Readable(a, b, n)
    ensures Compare(a, b, n) == a[i] as int - b[i] as int
  {
    DifferenceDecidesFrom(a, b, n, i, 0);
  }

  // ---------------------------------------------------------------------
  // Zero exactly on a bounded match

  lemma {:induction false} MatchGivesZeroFrom(a: seq<CChar>, b: seq<CChar>, n: nat, k: nat)
    requires AgreeBefore(a, b, k) && k <= n
    requires AgreeBefore(a, b, n) || exists e :: k <= e < n && SharedEndAt(a, b, e)
    ensures ReadableFrom(a, b, n, k)
    ensures CompareFrom(a, b, n, k) == 0
    decreases n - k
  {
    if k < n {
      if AgreeBefore(a, b, n) {
        MatchGivesZeroFrom(a, b, n, k + 1);
      } else {
        var e :| k <= e < n && SharedEndAt(a, b, e);
        if e > k {
          MatchGivesZeroFrom(a, b, n, k + 1);
        }
      }
    }
  }

  lemma {:induction false} ZeroGivesMatchFrom(a: seq<CChar>, b: seq<CChar>, n: nat, k: nat)
    requires AgreeBefore(a, b, k) && k <= n
    requires ReadableFrom(a, b, n, k)
    requires CompareFrom(a, b, n, k) == 0
    ensures BoundedEqual(a, b, n)
    decreases n - k
  {
    if k < n {
      if a[k] == NUL && b[k] == NUL {
        assert SharedEndAt(a, b, k);
      } else {
        ZeroGivesMatchFrom(a, b, n, k + 1);
      }
    }
  }

  /**
   * The result is 0 exactly when the strings match within the bound; a
   * bounded match needs no further readability assumption.
   */
  lemma ZeroIffMatch(a: seq<CChar>, b: seq<CChar>, n: nat)
    ensures BoundedEqual(a, b, n) ==> Readable(a, b, n) && Compare(a, b, n) == 0
    ensures Readable(a, b, n) && Compare(a, b, n) == 0 ==> BoundedEqual(a, b, n)
  {
    if BoundedEqual(a, b, n) {
      MatchGivesZeroFrom(a, b, n, 0);
    }
    if Readable(a, b, n) && Compare(a, b, n) == 0 {
      ZeroGivesMatchFrom(a, b, n, 0);
    }
  }

  // ---------------------------------------------------------------------
  // Only what is read matters

  lemma {:induction false} OnlyWindowMattersFrom(a: seq<CChar>, b: seq<CChar>, s: seq<CChar>, t: seq<CChar>, n: nat, i: nat)
    requires ReadableFrom(a, b, n, i)
    ensures ReadableFrom(a + s, b + t, n, i)
    ensures CompareFrom(a + s, b + t, n, i) == CompareFrom(a, b, n, i)
    decreases n - i
  {
    if i < n {
      assert (a + s)[i] == a[i] && (b + t)[i] == b[i];
      if !StopsAt(a, b, i) {
        OnlyWindowMattersFrom(a, b, s, t, n, i + 1);
      }
    }
  }

  /**
   * Whatever follows the readable window of a and b is never read: extending
   * the buffers changes neither readability nor the result.
   */
  lemma OnlyWindowMatters(a: seq<CChar>, b: seq<CChar>, s: seq<CChar>, t: seq<CChar>, n: nat)
    requires Readable(a, b, n)
    ensures Readable(a + s, b + t, n)
    ensures Compare(a + s, b + t, n) == Compare(a, b, n)
  {
    OnlyWindowMattersFrom(a, b, s, t, n, 0);
  }

  /**
   * Characters after a shared NUL at position k below n never affect the
   * result: any continuation of the two buffers compares equal.
   */
  lemma SharedEndHidesRest(a: seq<CChar>, b: seq<CChar>, s: seq<CChar>, t: seq<CChar>, n: nat, k: nat)
    requires k < n && SharedEndAt(a, b, k)
    ensures Readable(a[..k + 1] + s, b[..k + 1] + t, n)
    ensures Compare(a[..k + 1] + s, b[..k + 1] + t, n) == 0
  {
    var a', b' := a[..k + 1], b[..k + 1];
    assert SharedEndAt(a', b', k);
    ZeroIffMatch(a', b', n);
    OnlyWindowMatters(a', b', s, t, n);
  }

  // ---------------------------------------------------------------------
  // The sign gives the order

  /**
   * The result is negative exactly when a orders before b, positive exactly
   * when b orders before a, and 0 exactly on a bounded match.
   */
  lemma SignMatchesOrder(a: seq<CChar>, b: seq<CChar>, n: nat)
    requires Readable(a, b, n)
    ensures Compare(a, b, n) < 0 <==> BoundedLess(a, b, n)
    ensures Compare(a, b, n) > 0 <==> BoundedLess(b, a, n)
    ensures Compare(a, b, n) == 0 <==> BoundedEqual(a, b, n)
  {
    ZeroIffMatch(a, b, n);
    if Compare(a, b, n) != 0 {
      var i := FirstDifference(a, b, n);
      if a[i] < b[i] {
        assert BoundedLess(a, b, n);
      } else {
        assert FirstDifferenceAt(b, a, n, i);
        assert BoundedLess(b, a, n);
      }
    }
    if BoundedLess(a, b, n) {
      var i :| 0 <= i < n && FirstDifferenceAt(a, b, n, i) && a[i] < b[i];
      DifferenceDecides(a, b, n, i);
    }
    if BoundedLess(b, a, n) {
      var i :| 0 <= i < n && FirstDifferenceAt(b, a, n, i) && b[i] < a[i];
      assert FirstDifferenceAt(a, b, n, i);
      DifferenceDecides(a, b, n, i);
    }
  }

  /** The order the sign reports is transitive. */
  lemma BoundedLessTransitive(a: seq<CChar>, b: seq<CChar>, c: seq<CChar>, n: nat)
    requires BoundedLess(a, b, n) && BoundedLess(b, c, n)
    ensures BoundedLess(a, c, n)
  {
    var i :| 0 <= i < n && FirstDifferenceAt(a, b, n, i) && a[i] < b[i];
    var j :| 0 <= j < n && FirstDifferenceAt(b, c, n, j) && b[j] < c[j];
    if i <= j {
      assert FirstDifferenceAt(a, c, n, i);
    } else {
      assert FirstDifferenceAt(a, c, n, j);
    }
  }
}
