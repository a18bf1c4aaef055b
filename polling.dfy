/** The outcome of `wait_until_group_is_free` as a function of what the
    successive busy checks return. The wall clock is abstracted into the
    number of passes the deadline admits: `readings` holds one busy check
    for each of them, in order. */
module Polling {
  import opened Wrappers

  datatype WaitEnd = BecameFree | ReadFailed | TimedOut

  /** How the wait ended and how many status reads it issued. */
  datatype WaitRun = WaitRun(outcome: WaitEnd, polled: nat)

  /** Each reading is `None` (the read failed), `Some(true)` (busy) or
      `Some(false)` (free). The loop stops at the first failure or the first
      free reading, and otherwise goes on until the deadline. */
  function Wait(readings: seq<Option<bool>>): (w: WaitRun)
    ensures w.polled <= |readings|
    ensures w.outcome == TimedOut <==> w.polled == |readings| && (readings == [] || readings[|readings| - 1] == Some(true))
  {
    if readings == [] then WaitRun(TimedOut, 0)
    else match readings[0]
      case None => WaitRun(ReadFailed, 1)
      case Some(busy) =>
        if !busy then WaitRun(BecameFree, 1)
        else
          var w := Wait(readings[1..]);
          WaitRun(w.outcome, w.polled + 1)
  }

  /** Every one of the first `k` readings was "busy". */
  ghost predicate BusyBefore(readings: seq<Option<bool>>, k: nat)
    requires k <= |readings|
  {
    forall j :: 0 <= j < k ==> readings[j] == Some(true)
  }

  /** The first reading that is not "busy" ends the wait, after exactly as
      many reads as its position plus one. */
  lemma {:induction false} WaitStopsAtFirstNonBusy(readings: seq<Option<bool>>, k: nat)
    requires k < |readings| && BusyBefore(readings, k) && readings[k] != Some(true)
    ensures Wait(readings) == WaitRun(if readings[k] == None then ReadFailed else BecameFree, k + 1)
  {
    if k > 0 {
      WaitStopsAtFirstNonBusy(readings[1..], k - 1);
    }
  }

  /** Only busy readings: the deadline passes after reading every time. */
  lemma {:induction false} WaitTimesOut(readings: seq<Option<bool>>)
    requires BusyBefore(readings, |readings|)
    ensures Wait(readings) == WaitRun(TimedOut, |readings|)
  {
    if readings != [] {
      WaitTimesOut(readings[1..]);
    }
  }

  /** Either every reading is busy, or there is a first one that is not. */
  lemma {:induction false} FirstNonBusy(readings: seq<Option<bool>>) returns (k: nat)
    requires !BusyBefore(readings, |readings|)
    ensures k < |readings| && BusyBefore(readings, k) && readings[k] != Some(true)
  {
    if readings[0] != Some(true) {
      k := 0;
    } else {
      var k' := FirstNonBusy(readings[1..]);
      k := k' + 1;
    }
  }

  /** There is only one first non-busy reading. */
  lemma FirstNonBusyUnique(readings: seq<Option<bool>>, j: nat, k: nat)
    requires j < |readings| && BusyBefore(readings, j) && readings[j] != Some(true)
    requires k < |readings| && BusyBefore(readings, k) && readings[k] != Some(true)
    ensures j == k
  {
  }

  /** The three outcomes, each characterised by the readings alone. */
  lemma {:induction false} WaitOutcomes(readings: seq<Option<bool>>)
    ensures Wait(readings).outcome == BecameFree <==>
      exists k :: 0 <= k < |readings| && BusyBefore(readings, k) && readings[k] == Some(false)
    ensures Wait(readings).outcome == ReadFailed <==>
      exists k :: 0 <= k < |readings| && BusyBefore(readings, k) && readings[k] == None
    ensures Wait(readings).outcome == TimedOut <==> BusyBefore(readings, |readings|)
  {
    if BusyBefore(readings, |readings|) {
      WaitTimesOut(readings);
    } else {
      var k := FirstNonBusy(readings);
      WaitStopsAtFirstNonBusy(readings, k);
      forall j | 0 <= j < |readings| && BusyBefore(readings, j) && readings[j] != Some(true)
        ensures j == k
      {
        FirstNonBusyUnique(readings, j, k);
      }
      if readings[k] == None {
        assert 0 <= k < |readings| && BusyBefore(readings, k) && readings[k] == None;
      } else {
        assert readings[k].Some? && !readings[k].value;
        assert 0 <= k < |readings| && BusyBefore(readings, k) && readings[k] == Some(false);
      }
    }
  }

  /** A group reported busy three times and then free: the wait succeeds
      with exactly four reads, when the deadline admits at least four. */
  lemma BusyThreeTimesThenFree(readings: seq<Option<bool>>)
    requires |readings| >= 4
    requires readings[..4] == [Some(true), Some(true), Some(true), Some(false)]
    ensures Wait(readings) == WaitRun(BecameFree, 4)
  {
    assert readings[3] == readings[..4][3];
    assert forall j :: 0 <= j < 3 ==> readings[j] == readings[..4][j];
    WaitStopsAtFirstNonBusy(readings, 3);
  }
}
