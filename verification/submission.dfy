/**
 What happens on each form submission: `respondToFormSubmit` builds the
 webhook payload, runs `limitFormSubmissionByNumber` (scan, then close the
 form and notify the owner when the response count equals the limit), and,
 while email quota remains, runs `sendRespondentNotification`.

 The form's lifecycle is a two-state machine, accepting and closed: the only
 transition is accepting to closed, taken when the count equals the limit.

 Email quota is an abstract number; each email sent uses one unit of it.
 Sending is recorded as an `Email` value in the returned list.
 */
module Submission {
  import opened FormModel
  import opened ConfigScan
  import opened JsNumber
  import opened Webhook

  /** The two notifications the script sends. */
  datatype Email =
    | CreatorNotification(to: string, subject: string, responses: nat, responseStep: Limit)
    | RespondentNotification(to: string)

  /** Appended to the form title to make the owner notification's subject. */
  const CreatorSubjectSuffix: string := ": Form submissions increased detected"

  /**
   `form.getResponses().length == limit`, with the loose equality of
   `JsNumber`: the limit is reached exactly when it denotes the count, as the
   number itself or as a text that converts to it.
   */
  predicate LimitReached(count: nat, limit: Limit): (r: bool)
    ensures limit == Number(count) ==> r
    ensures limit == Answer(ShowDecimal(count)) ==> r
    ensures r ==> limit == Number(count) || (limit.Answer? && ToNumber(limit.text) == Some(count))
  {
    LooseEqualsShowDecimal(count, count);
    match limit
    case Number(n) => count == n
    case Answer(text) => LooseEquals(count, text)
  }

  /** Whether the limiter closes `form`: its response count equals its scanned limit. */
  predicate ClosesForm(form: Form)
  {
    LimitReached(|form.responses|, ScanConfig(form.responses).limit)
  }

  function CreatorCount(sent: seq<Email>): nat
    decreases |sent|
  {
    if |sent| == 0 then 0
    else CreatorCount(sent[..|sent| - 1]) + (if sent[|sent| - 1].CreatorNotification? then 1 else 0)
  }

  function RespondentCount(sent: seq<Email>): nat
    decreases |sent|
  {
    if |sent| == 0 then 0
    else RespondentCount(sent[..|sent| - 1]) + (if sent[|sent| - 1].RespondentNotification? then 1 else 0)
  }

  lemma {:induction false} CountsAppend(a: seq<Email>, b: seq<Email>)
    ensures CreatorCount(a + b) == CreatorCount(a) + CreatorCount(b)
    ensures RespondentCount(a + b) == RespondentCount(a) + RespondentCount(b)
    decreases |b|
  {
    if |b| == 0 {
      assert a + b == a;
    } else {
      assert (a + b)[..|a + b| - 1] == a + b[..|b| - 1];
      CountsAppend(a, b[..|b| - 1]);
    }
  }

  /** The counts of a list of at most one email. */
  lemma SmallCounts(sent: seq<Email>)
    requires |sent| <= 1
    ensures CreatorCount(sent) == (if |sent| == 1 && sent[0].CreatorNotification? then 1 else 0)
    ensures RespondentCount(sent) == (if |sent| == 1 && sent[0].RespondentNotification? then 1 else 0)
  {
  }

  // ---------------------------------------------------------------------
  // limitFormSubmissionByNumber
  // ---------------------------------------------------------------------

  datatype LimitResult = LimitResult(form: Form, sent: seq<Email>, quota: nat)

  /**
   The limiter: scan for the limit and address; when the count equals the
   limit, notify the owner if quota remains and close the form whatever the
   quota.
   */
  function LimitFormSubmissionByNumber(form: Form, quota: nat): (r: LimitResult)
    ensures r.form.title == form.title && r.form.items == form.items
    ensures r.form.responses == form.responses
    ensures r.form.accepting <==> form.accepting && !ClosesForm(form)
    ensures |r.sent| == (if ClosesForm(form) && quota > 0 then 1 else 0)
    ensures forall k :: 0 <= k < |r.sent| ==>
      r.sent[k] == CreatorNotification(
        ScanConfig(form.responses).address,
        form.title + ": Form submissions increased detected",
        |form.responses|,
        ScanConfig(form.responses).limit)
    ensures r.quota == quota - |r.sent|
  {
    var config := ScanConfig(form.responses);
    var count := |form.responses|;
    if LimitReached(count, config.limit) then
      var sent :=
        if quota > 0 then [CreatorNotification(config.address, form.title + CreatorSubjectSuffix, count, config.limit)]
        else [];
      LimitResult(form.(accepting := false), sent, quota - |sent|)
    else
      LimitResult(form, [], quota)
  }

  /** With a numeric limit n, the form is closed exactly when the count is n. */
  lemma NumericLimitClosesOnlyAtEquality(form: Form, quota: nat, n: int)
    requires form.accepting
    requires ScanConfig(form.responses).limit == Number(n)
    ensures !LimitFormSubmissionByNumber(form, quota).form.accepting <==> |form.responses| == n
    ensures |form.responses| < n ==> LimitFormSubmissionByNumber(form, quota).form.accepting
    ensures |form.responses| > n ==> LimitFormSubmissionByNumber(form, quota).form.accepting
  {
  }

  /** With no limit answer, the form closes at exactly 100 responses. */
  lemma DefaultLimitClosesAtHundred(form: Form, quota: nat)
    requires form.accepting
    requires NoAnswerTitled(form.responses, LimitLabel)
    ensures !LimitFormSubmissionByNumber(form, quota).form.accepting <==> |form.responses| == 100
  {
    ScanKeepsLimit(form.responses);
  }

  // ---------------------------------------------------------------------
  // sendRespondentNotification
  // ---------------------------------------------------------------------

  /** The respondent notification: sent to the scanned address unless it is empty. */
  function SendRespondentNotification(form: Form): (r: Option<Email>)
    ensures r.Some? <==> ScanConfig(form.responses).address != ""
    ensures r.Some? ==> r.value == RespondentNotification(ScanConfig(form.responses).address)
  {
    ScanAddressAgrees(form.responses);
    var address := ScanAddress(form.responses);
    if address != "" then Some(RespondentNotification(address)) else None
  }

  // ---------------------------------------------------------------------
  // respondToFormSubmit
  // ---------------------------------------------------------------------

  datatype Outcome = Outcome(payload: seq<PayloadEntry>, form: Form, sent: seq<Email>, quota: nat)

  /**
   The submit handler, run on a form whose responses already include the new
   one. The owner email uses one unit of quota before the respondent guard
   reads it.
   */
  function RespondToFormSubmit(form: Form, quota: nat): (r: Outcome)
    ensures r.payload == Payload(form.items)
    ensures r.form.title == form.title && r.form.items == form.items
    ensures r.form.responses == form.responses
    ensures r.form.accepting <==> form.accepting && !ClosesForm(form)
    ensures CreatorCount(r.sent) == (if ClosesForm(form) && quota > 0 then 1 else 0)
    ensures RespondentCount(r.sent) ==
      (if ScanConfig(form.responses).address != "" && quota > (if ClosesForm(form) then 1 else 0) then 1 else 0)
    ensures |r.sent| == CreatorCount(r.sent) + RespondentCount(r.sent)
    ensures forall e :: e in r.sent ==> e.to == ScanConfig(form.responses).address
    ensures r.quota == quota - |r.sent|
  {
    var limited := LimitFormSubmissionByNumber(form, quota);
    var notice := if limited.quota > 0 then SendRespondentNotification(limited.form) else None;
    var extra := if notice.Some? then [notice.value] else [];
    CountsAppend(limited.sent, extra);
    SmallCounts(limited.sent);
    SmallCounts(extra);
    Outcome(Payload(form.items), limited.form, limited.sent + extra, limited.quota - |extra|)
  }

  // ---------------------------------------------------------------------
  // A run of submissions
  // ---------------------------------------------------------------------

  /**
   The form together with every email sent so far, the quota left, and the
   number of installed submit triggers bound to `respondToFormSubmit`. Each
   collaborator who opened the sidebar an odd number of times owns one such
   trigger, and the host runs the handler once per trigger on every
   submission.
   */
  datatype RunState = RunState(form: Form, sent: seq<Email>, quota: nat, handlers: nat)

  /** One run of the handler on the recorded submission; its emails are appended to the log. */
  function RunHandler(s: RunState): (r: RunState)
    ensures r.handlers == s.handlers
    ensures r.form.title == s.form.title && r.form.items == s.form.items
    ensures r.form.responses == s.form.responses
    ensures r.form.accepting <==> s.form.accepting && !ClosesForm(s.form)
    ensures CreatorCount(r.sent) == CreatorCount(s.sent) + (if ClosesForm(s.form) && s.quota > 0 then 1 else 0)
    ensures r.quota + 2 >= s.quota
  {
    var o := RespondToFormSubmit(s.form, s.quota);
    CountsAppend(s.sent, o.sent);
    RunState(o.form, s.sent + o.sent, o.quota, s.handlers)
  }

  /**
   `k` runs of the handler on the same recorded submission. The handler does
   not look at the accepting flag, so every run past the first sees the same
   count and, at the limit, notifies the owner again while quota lasts.
   */
  function HandlerRuns(s: RunState, k: nat): (r: RunState)
    ensures r.handlers == s.handlers
    ensures r.form.title == s.form.title && r.form.items == s.form.items
    ensures r.form.responses == s.form.responses
    ensures r.form.accepting <==> s.form.accepting && (k == 0 || !ClosesForm(s.form))
    ensures CreatorCount(r.sent) <= CreatorCount(s.sent) + k
    ensures !ClosesForm(s.form) ==> CreatorCount(r.sent) == CreatorCount(s.sent)
    ensures ClosesForm(s.form) && s.quota >= 2 * k ==> CreatorCount(r.sent) == CreatorCount(s.sent) + k
    ensures r.quota + 2 * k >= s.quota
    decreases k
  {
    if k == 0 then s
    else
      var prev := HandlerRuns(s, k - 1);
      assert ClosesForm(prev.form) == ClosesForm(s.form) by {
        assert prev.form.responses == s.form.responses;
      }
      RunHandler(prev)
  }

  /**
   One submission: the host refuses it while the form is closed; otherwise
   the response is recorded and every installed trigger runs the handler.
   With no trigger nothing closes the form; with several, the owner can be
   notified more than once.
   */
  function Submit(s: RunState, response: Response): (r: RunState)
    ensures r.handlers == s.handlers
    ensures !s.form.accepting ==> r == s
    ensures s.form.accepting ==> r.form.responses == s.form.responses + [response]
    ensures s.form.accepting ==>
      (!r.form.accepting <==> s.handlers > 0 && ClosesForm(s.form.(responses := s.form.responses + [response])))
    ensures CreatorCount(r.sent) <= CreatorCount(s.sent) + (if s.form.accepting then s.handlers else 0)
    ensures r.form.accepting ==> CreatorCount(r.sent) == CreatorCount(s.sent)
  {
    if !s.form.accepting then s
    else HandlerRuns(s.(form := s.form.(responses := s.form.responses + [response])), s.handlers)
  }

  /** The submissions `rs`, in order; nothing reopens the form. */
  function Run(s: RunState, rs: seq<Response>): (r: RunState)
    ensures r.handlers == s.handlers
    ensures r.form.accepting ==> s.form.accepting
    decreases |rs|
  {
    if |rs| == 0 then s else Submit(Run(s, rs[..|rs| - 1]), rs[|rs| - 1])
  }

  /** Appending the prefix of `b`, then its last element, appends `b`. */
  lemma AppendLast<T>(a: seq<T>, b: seq<T>)
    requires |b| > 0
    ensures a + b[..|b| - 1] + [b[|b| - 1]] == a + b
  {
    assert b[..|b| - 1] + [b[|b| - 1]] == b;
  }

  /** A submission that reaches the limit notifies the owner once per installed trigger. */
  lemma DuplicateTriggersRepeatNotification(s: RunState, response: Response)
    requires s.form.accepting
    requires ClosesForm(s.form.(responses := s.form.responses + [response]))
    requires s.quota >= 2 * s.handlers
    ensures CreatorCount(Submit(s, response).sent) == CreatorCount(s.sent) + s.handlers
  {
  }

  /** Closed is terminal: once closed, no submission changes anything. */
  lemma {:induction false} ClosedIsTerminal(s: RunState, rs: seq<Response>)
    requires !s.form.accepting
    ensures Run(s, rs) == s
    decreases |rs|
  {
    if |rs| > 0 {
      ClosedIsTerminal(s, rs[..|rs| - 1]);
    }
  }

  /** While the form stays open, every submission was recorded and no owner email was sent. */
  lemma {:induction false} RunWhileOpen(s: RunState, rs: seq<Response>)
    ensures Run(s, rs).form.accepting ==> Run(s, rs).form.responses == s.form.responses + rs
    ensures Run(s, rs).form.accepting ==> CreatorCount(Run(s, rs).sent) == CreatorCount(s.sent)
    decreases |rs|
  {
    if |rs| > 0 {
      var prefix := rs[..|rs| - 1];
      RunWhileOpen(s, prefix);
      var prev := Run(s, prefix);
      if prev.form.accepting {
        assert prefix + [rs[|rs| - 1]] == rs;
      }
    }
  }

  /**
   Over any run, the owner is notified at most once per installed trigger,
   and never from a form that starts closed.
   */
  lemma {:induction false} CreatorNotificationsPerTrigger(s: RunState, rs: seq<Response>)
    ensures CreatorCount(Run(s, rs).sent) <= CreatorCount(s.sent) + (if s.form.accepting then s.handlers else 0)
    decreases |rs|
  {
    if |rs| > 0 {
      var prefix := rs[..|rs| - 1];
      CreatorNotificationsPerTrigger(s, prefix);
      RunWhileOpen(s, prefix);
    }
  }

  /** With at most one installed trigger, at most one owner notification is sent over any run. */
  lemma AtMostOneCreatorNotification(s: RunState, rs: seq<Response>)
    requires s.handlers <= 1
    ensures CreatorCount(Run(s, rs).sent) <= CreatorCount(s.sent) + (if s.form.accepting then 1 else 0)
  {
    CreatorNotificationsPerTrigger(s, rs);
  }

  /** The limit is reached by the count n and by no other count. */
  ghost predicate ReachedExactlyAt(limit: Limit, n: nat)
  {
    forall c: nat :: LimitReached(c, limit) <==> c == n
  }

  /**
   When every limit the run can see is reached exactly at count n, a form
   that starts open with c responses is closed at the end if and only if a
   trigger is installed and c < n <= c + |rs|. In particular a form already
   past n is never closed, and neither is a form with no trigger.
   */
  lemma {:induction false} RunClosesAtLimit(s: RunState, rs: seq<Response>, n: nat)
    requires s.form.accepting
    requires NoAnswerTitled(rs, LimitLabel)
    requires ReachedExactlyAt(ScanConfig(s.form.responses).limit, n)
    ensures !Run(s, rs).form.accepting <==> s.handlers > 0 && |s.form.responses| < n <= |s.form.responses| + |rs|
    decreases |rs|
  {
    if |rs| > 0 {
      var m := |rs|;
      var prefix := rs[..m - 1];
      NoAnswerTitledPrefix(rs, m - 1, LimitLabel);
      RunClosesAtLimit(s, prefix, n);
      RunWhileOpen(s, prefix);
      var prev := Run(s, prefix);
      if prev.form.accepting {
        var f := prev.form.(responses := prev.form.responses + [rs[m - 1]]);
        AppendLast(s.form.responses, rs);
        assert f.responses == s.form.responses + rs;
        ScanAppendKeepsLimit(s.form.responses, rs);
        assert ClosesForm(f) <==> LimitReached(|s.form.responses| + m, ScanConfig(s.form.responses).limit);
        assert ClosesForm(f) <==> |s.form.responses| + m == n;
      }
    }
  }

  /** With no limit answer anywhere, a run closes the form exactly when it reaches 100 responses. */
  lemma DefaultLimitRun(s: RunState, rs: seq<Response>)
    requires s.form.accepting
    requires NoAnswerTitled(s.form.responses, LimitLabel) && NoAnswerTitled(rs, LimitLabel)
    ensures !Run(s, rs).form.accepting <==> s.handlers > 0 && |s.form.responses| < 100 <= |s.form.responses| + |rs|
  {
    ScanKeepsLimit(s.form.responses);
    RunClosesAtLimit(s, rs, 100);
  }

  /**
   With a limit answered as the decimal text of n and not answered again, a
   run closes the form exactly when it reaches n responses.
   */
  lemma AnsweredLimitRun(s: RunState, rs: seq<Response>, n: nat)
    requires s.form.accepting
    requires ScanConfig(s.form.responses).limit == Answer(ShowDecimal(n))
    requires NoAnswerTitled(rs, LimitLabel)
    ensures !Run(s, rs).form.accepting <==> s.handlers > 0 && |s.form.responses| < n <= |s.form.responses| + |rs|
  {
    forall c: nat
      ensures LimitReached(c, ScanConfig(s.form.responses).limit) <==> c == n
    {
      LooseEqualsShowDecimal(c, n);
    }
    RunClosesAtLimit(s, rs, n);
  }
}
