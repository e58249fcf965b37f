/** Choosing between a video's encoded creation date and the file's local
    modification date when they disagree. */
module Reconcile {
  import opened Calendar

  function Abs(x: int): nat {
    if x < 0 then -x else x
  }

  /** `abs(a - b).total_seconds()` for two whole-second date-times. */
  function Distance(a: Timestamp, b: Timestamp): nat {
    Abs(ToSeconds(a) - ToSeconds(b))
  }

  /** The offsets a mislabelled time zone can explain: one to twenty-three
      whole hours. */
  const WholeHourOffsets: set<int> := set k | 1 <= k <= 23 :: k * SecondsPerHour

  lemma WholeHourOffsetsExactly(d: int)
    ensures d in WholeHourOffsets <==> 0 < d < SecondsPerDay && d % SecondsPerHour == 0
  {
    if 0 < d < SecondsPerDay && d % SecondsPerHour == 0 {
      var k := d / SecondsPerHour;
      assert d == k * SecondsPerHour;
      assert 1 <= k <= 23;
    }
  }

  /** The decision at the end of `extract_creation_date` for videos: keep the
      encoded date unless the two dates differ by a whole number of hours
      (less than a day), in which case the encoded date's zone is taken to be
      wrong and the local modification date wins. */
  function ReconcileDates(encoded: Timestamp, modified: Timestamp): (r: Timestamp)
    ensures r == encoded || r == modified
    ensures (r == modified && modified != encoded) <==> Distance(encoded, modified) in WholeHourOffsets
  {
    ToSecondsInjective(encoded, modified);
    WholeHourOffsetsExactly(Distance(encoded, modified));
    if encoded == modified then
      encoded
    else
      var diffSeconds := Distance(encoded, modified);
      if diffSeconds < 24 * 60 * 60 && diffSeconds % (60 * 60) == 0 then modified else encoded
  }

  /** Which source wins depends only on how far apart the dates are, not on
      which of them is later. */
  lemma ReconcileSymmetric(a: Timestamp, b: Timestamp)
    ensures (ReconcileDates(a, b) == b && a != b) <==> (ReconcileDates(b, a) == a && a != b)
    ensures ReconcileDates(a, b) == a <==> ReconcileDates(b, a) == b
  {
    assert Distance(a, b) == Distance(b, a);
  }

  /** Equal dates: the encoded one is returned. */
  lemma ReconcileEqual(t: Timestamp)
    ensures ReconcileDates(t, t) == t
  {
  }

  /** 18:38:56 encoded against 16:38:56 local, two hours apart: the local
      modification date wins. */
  lemma ReconcileTwoHours()
    ensures ReconcileDates(DateTime(2025, 11, 9, 18, 38, 56), DateTime(2025, 11, 9, 16, 38, 56))
         == DateTime(2025, 11, 9, 16, 38, 56)
  {
    assert Distance(DateTime(2025, 11, 9, 18, 38, 56), DateTime(2025, 11, 9, 16, 38, 56)) == 7200;
  }

  /** Twenty-five hours apart: the encoded date is kept. */
  lemma ReconcileTwentyFiveHours()
    ensures ReconcileDates(DateTime(2025, 11, 10, 17, 38, 56), DateTime(2025, 11, 9, 16, 38, 56))
         == DateTime(2025, 11, 10, 17, 38, 56)
  {
    assert Distance(DateTime(2025, 11, 10, 17, 38, 56), DateTime(2025, 11, 9, 16, 38, 56)) == 90000;
  }

  /** An hour and a half apart, not a whole number of hours: the encoded date is kept. */
  lemma ReconcileNinetyMinutes()
    ensures ReconcileDates(DateTime(2025, 11, 9, 18, 8, 56), DateTime(2025, 11, 9, 16, 38, 56))
         == DateTime(2025, 11, 9, 18, 8, 56)
  {
    assert Distance(DateTime(2025, 11, 9, 18, 8, 56), DateTime(2025, 11, 9, 16, 38, 56)) == 5400;
  }
}
