/**
 `createSubmitTrigger`: the script looks through the form's user triggers for
 the first one fired on form submission. If there is none it installs one
 bound to `respondToFormSubmit`; otherwise it deletes the one it found. The
 operation is therefore a toggle, not an idempotent install.
 */
module Triggers {
  import opened FormModel

  /** The event kinds of the host's trigger service. */
  datatype EventType = Clock | OnOpen | OnEdit | OnFormSubmit | OnChange | OnEventUpdated

  /** One installed trigger: the event it fires on and the function it calls. */
  datatype Trigger = Trigger(eventType: EventType, handler: string)

  /** The function the installed submit trigger calls. */
  const SubmitHandler: string := "respondToFormSubmit"

  /** The trigger `createSubmitTrigger` installs. */
  const SubmitTrigger: Trigger := Trigger(OnFormSubmit, SubmitHandler)

  predicate IsSubmit(t: Trigger)
  {
    t.eventType == OnFormSubmit
  }

  /** The index of the first submit trigger, if any. */
  function FirstSubmit(ts: seq<Trigger>): (r: Option<nat>)
    ensures r.None? <==> forall k :: 0 <= k < |ts| ==> !IsSubmit(ts[k])
    ensures r.Some? ==> r.value < |ts| && IsSubmit(ts[r.value])
    ensures r.Some? ==> forall k :: 0 <= k < r.value ==> !IsSubmit(ts[k])
    decreases |ts|
  {
    if |ts| == 0 then None
    else if IsSubmit(ts[0]) then Some(0)
    else match FirstSubmit(ts[1..]) {
      case None => None
      case Some(i) => Some(i + 1)
    }
  }

  /**
   The trigger table after one call of `createSubmitTrigger`. With no submit
   trigger, the new one is appended; otherwise the first submit trigger is
   deleted and every other entry keeps its order.
   */
  function Toggle(ts: seq<Trigger>): (r: seq<Trigger>)
    ensures (forall k :: 0 <= k < |ts| ==> !IsSubmit(ts[k])) ==> r == ts + [SubmitTrigger]
    ensures FirstSubmit(ts).Some? ==> |r| == |ts| - 1
    ensures FirstSubmit(ts).Some? ==> forall k :: 0 <= k < FirstSubmit(ts).value ==> r[k] == ts[k]
    ensures FirstSubmit(ts).Some? ==> forall k :: FirstSubmit(ts).value <= k < |ts| - 1 ==> r[k] == ts[k + 1]
  {
    match FirstSubmit(ts) {
      case None => ts + [SubmitTrigger]
      case Some(i) => ts[..i] + ts[i + 1..]
    }
  }

  /** The search loop of `createSubmitTrigger`, stopping at the first match. */
  method FindExistingTrigger(ts: seq<Trigger>) returns (existing: Option<nat>)
    ensures existing.None? ==> forall k :: 0 <= k < |ts| ==> !IsSubmit(ts[k])
    ensures existing.Some? ==> existing.value < |ts| && IsSubmit(ts[existing.value])
    ensures existing.Some? ==> forall k :: 0 <= k < existing.value ==> !IsSubmit(ts[k])
    ensures existing == FirstSubmit(ts)
  {
    existing := None;
    var i := 0;
    while i < |ts|
      invariant 0 <= i <= |ts|
      invariant forall k :: 0 <= k < i ==> !IsSubmit(ts[k])
    {
      if IsSubmit(ts[i]) {
        existing := Some(i);
        break;
      }
      i := i + 1;
    }
  }

  /** `createSubmitTrigger` on the trigger table. */
  method CreateSubmitTrigger(ts: seq<Trigger>) returns (ts': seq<Trigger>)
    ensures ts' == Toggle(ts)
  {
    var existing := FindExistingTrigger(ts);
    if existing.None? {
      ts' := ts + [SubmitTrigger];
    } else {
      var i := existing.value;
      ts' := ts[..i] + ts[i + 1..];
    }
  }

  // ---------------------------------------------------------------------
  // Counting and filtering, the independent view of the table
  // ---------------------------------------------------------------------

  /** The number of submit triggers. */
  function SubmitCount(ts: seq<Trigger>): nat
    decreases |ts|
  {
    if |ts| == 0 then 0 else (if IsSubmit(ts[0]) then 1 else 0) + SubmitCount(ts[1..])
  }

  /** The triggers of every other event type, in order. */
  function Others(ts: seq<Trigger>): seq<Trigger>
    decreases |ts|
  {
    if |ts| == 0 then [] else (if IsSubmit(ts[0]) then [] else [ts[0]]) + Others(ts[1..])
  }

  lemma {:induction false} SubmitCountAppend(a: seq<Trigger>, b: seq<Trigger>)
    ensures SubmitCount(a + b) == SubmitCount(a) + SubmitCount(b)
    decreases |a|
  {
    if |a| > 0 {
      assert (a + b)[1..] == a[1..] + b;
      SubmitCountAppend(a[1..], b);
    } else {
      assert a + b == b;
    }
  }

  lemma {:induction false} OthersAppend(a: seq<Trigger>, b: seq<Trigger>)
    ensures Others(a + b) == Others(a) + Others(b)
    decreases |a|
  {
    if |a| > 0 {
      assert (a + b)[1..] == a[1..] + b;
      OthersAppend(a[1..], b);
    } else {
      assert a + b == b;
    }
  }

  /** A table with no submit trigger counts none. */
  lemma {:induction false} NoSubmitCountsZero(ts: seq<Trigger>)
    requires forall k :: 0 <= k < |ts| ==> !IsSubmit(ts[k])
    ensures SubmitCount(ts) == 0
    decreases |ts|
  {
    if |ts| > 0 {
      NoSubmitCountsZero(ts[1..]);
    }
  }

  /** Splitting the table around position i. */
  lemma SplitAt(ts: seq<Trigger>, i: nat)
    requires i < |ts|
    ensures ts == ts[..i] + [ts[i]] + ts[i + 1..]
  {
  }

  // ---------------------------------------------------------------------
  // What one call of `createSubmitTrigger` does
  // ---------------------------------------------------------------------

  /** With no submit trigger, exactly one is added, bound to `respondToFormSubmit`. */
  lemma ToggleInstallsWhenAbsent(ts: seq<Trigger>)
    requires forall k :: 0 <= k < |ts| ==> !IsSubmit(ts[k])
    ensures Toggle(ts) == ts + [Trigger(OnFormSubmit, "respondToFormSubmit")]
    ensures SubmitCount(Toggle(ts)) == 1
  {
    NoSubmitCountsZero(ts);
    SubmitCountAppend(ts, [SubmitTrigger]);
    assert SubmitCount([SubmitTrigger]) == 1 + SubmitCount([]);
  }

  /** One call changes the number of submit triggers from 0 to 1, or from n to n - 1. */
  lemma ToggleSubmitCount(ts: seq<Trigger>)
    ensures SubmitCount(Toggle(ts)) == if SubmitCount(ts) == 0 then 1 else SubmitCount(ts) - 1
  {
    match FirstSubmit(ts) {
      case None =>
        ToggleInstallsWhenAbsent(ts);
        NoSubmitCountsZero(ts);
      case Some(i) =>
        SplitAt(ts, i);
        SubmitCountAppend(ts[..i] + [ts[i]], ts[i + 1..]);
        SubmitCountAppend(ts[..i], [ts[i]]);
        SubmitCountAppend(ts[..i], ts[i + 1..]);
        assert SubmitCount([ts[i]]) == 1 + SubmitCount([]);
    }
  }

  /** Triggers of every other event type are untouched, in content and order. */
  lemma ToggleKeepsOthers(ts: seq<Trigger>)
    ensures Others(Toggle(ts)) == Others(ts)
  {
    match FirstSubmit(ts) {
      case None =>
        OthersAppend(ts, [SubmitTrigger]);
        assert Others([SubmitTrigger]) == [] + Others([]);
      case Some(i) =>
        SplitAt(ts, i);
        OthersAppend(ts[..i] + [ts[i]], ts[i + 1..]);
        OthersAppend(ts[..i], [ts[i]]);
        OthersAppend(ts[..i], ts[i + 1..]);
        assert Others([ts[i]]) == [] + Others([]);
    }
  }

  // ---------------------------------------------------------------------
  // Two calls
  // ---------------------------------------------------------------------

  /** Starting with no submit trigger, two calls leave the table as it started. */
  lemma ToggleTwiceRestores(ts: seq<Trigger>)
    requires forall k :: 0 <= k < |ts| ==> !IsSubmit(ts[k])
    ensures Toggle(Toggle(ts)) == ts
  {
    var ts' := Toggle(ts);
    assert ts' == ts + [SubmitTrigger];
    assert forall k :: 0 <= k < |ts| ==> !IsSubmit(ts'[k]);
    assert IsSubmit(ts'[|ts|]);
    assert FirstSubmit(ts') == Some(|ts|);
    assert ts'[..|ts|] == ts;
  }

  /** The toggle is never idempotent: a second call always changes the table. */
  lemma ToggleNotIdempotent(ts: seq<Trigger>)
    ensures Toggle(Toggle(ts)) != Toggle(ts)
  {
    ToggleSubmitCount(ts);
    ToggleSubmitCount(Toggle(ts));
  }
}
