/** The best-so-far record the brute-force searches keep: a length that
    starts at the largest f64 and a path that starts absent, replaced only
    when a measured tour scores strictly less. */
module Record {
  import opened Wrappers
  import opened Util

  /** How a search scores a tour. */
  type Score = seq<nat> -> real

  /** length and path record the first lowest-scoring of the measured tours,
      at position `best`; no path means no measured tour scored below F64Max. */
  ghost predicate Tracks(score: Score, measured: seq<seq<nat>>, length: real, path: Option<seq<nat>>, best: nat)
  {
    && length <= F64Max
    && (forall j :: 0 <= j < |measured| ==> length <= score(measured[j]))
    && (path.None? ==> length == F64Max)
    && (path.Some? ==>
          && best < |measured|
          && path.value == measured[best]
          && length == score(path.value)
          && length < F64Max
          && forall j :: 0 <= j < best ==> score(measured[j]) > length)
  }

  /** Before anything is measured the record is the sentinel. */
  lemma TracksStart(score: Score)
    ensures Tracks(score, [], F64Max, None, 0)
  {
  }

  /** Measuring one more tour and keeping it only when it scores strictly
      less keeps the record; a tie keeps the earlier tour. */
  lemma TracksStep(score: Score, measured: seq<seq<nat>>, length: real, path: Option<seq<nat>>, best: nat,
                   next: seq<nat>, newLength: real)
    requires Tracks(score, measured, length, path, best)
    requires newLength == score(next)
    ensures newLength < length ==> Tracks(score, measured + [next], newLength, Some(next), |measured|)
    ensures newLength >= length ==> Tracks(score, measured + [next], length, path, best)
  {
    var m := measured + [next];
    if newLength < length {
      assert m[|measured|] == next;
      forall j | 0 <= j < |measured|
        ensures score(m[j]) > newLength
      {
        assert m[j] == measured[j];
      }
    } else {
      forall j | 0 <= j < |m|
        ensures length <= score(m[j])
      {
        if j < |measured| {
          assert m[j] == measured[j];
        }
      }
      if path.Some? {
        assert m[best] == measured[best];
      }
    }
  }

  /** A kept path scores no more than any measured tour, and strictly less
      than every earlier one. */
  lemma RecordIsFirstMinimum(score: Score, measured: seq<seq<nat>>, length: real, path: Option<seq<nat>>, best: nat)
    requires Tracks(score, measured, length, path, best) && path.Some?
    ensures forall j :: 0 <= j < |measured| ==> score(path.value) <= score(measured[j])
    ensures forall j :: 0 <= j < best ==> score(measured[j]) > score(path.value)
  {
  }

  /** With no path kept, every measured tour scores at least F64Max. */
  lemma NoRecordMeansSentinel(score: Score, measured: seq<seq<nat>>, length: real, path: Option<seq<nat>>, best: nat)
    requires Tracks(score, measured, length, path, best) && path.None?
    ensures forall j :: 0 <= j < |measured| ==> score(measured[j]) >= F64Max
  {
  }
}
