/**
 The configuration scan run on every submission: all responses are walked in
 order, and every answer to an item titled "Form Submission Limit" or
 "Email Address" overwrites the limit or the notification address. The scan
 is a left fold of `Step` over the answers; the last matching answer wins.
 */
module ConfigScan {
  import opened FormModel

  /**
   The value the script's `limit` variable holds: the number literal it
   starts with, or the text of the last answer that overwrote it.
   */
  datatype Limit = Number(n: int) | Answer(text: string)

  /** What the scan yields: the limit and the notification address. */
  datatype Config = Config(limit: Limit, address: string)

  /** The configuration before any answer has been seen. */
  const Initial: Config := Config(Number(DefaultLimit), DefaultAddress)

  /**
   The effect of one answer: the two independent title tests of the loop
   body. Each field is decided by its own label alone, so an answer titled
   with neither label changes nothing.
   */
  function Step(c: Config, a: ItemResponse): (r: Config)
    ensures r.limit == (if TitleOf(a) == LimitLabel then Answer(a.response) else c.limit)
    ensures r.address == (if TitleOf(a) == AddressLabel then a.response else c.address)
    ensures TitleOf(a) != LimitLabel && TitleOf(a) != AddressLabel ==> r == c
  {
    var c' := if TitleOf(a) == LimitLabel then c.(limit := Answer(a.response)) else c;
    if TitleOf(a) == AddressLabel then c'.(address := a.response) else c'
  }

  /** Left fold of `Step` over the answers of one response, first answer first. */
  function FoldAnswers(c: Config, answers: seq<ItemResponse>): Config
    decreases |answers|
  {
    if |answers| == 0 then c else Step(FoldAnswers(c, answers[..|answers| - 1]), answers[|answers| - 1])
  }

  /** Left fold over the responses, first response first. */
  function FoldResponses(c: Config, rs: seq<Response>): Config
    decreases |rs|
  {
    if |rs| == 0 then c else FoldAnswers(FoldResponses(c, rs[..|rs| - 1]), rs[|rs| - 1])
  }

  /** Some answer of the response is titled "Form Submission Limit" and has `limit` as its text. */
  ghost predicate LimitFrom(answers: seq<ItemResponse>, limit: Limit)
  {
    exists j :: 0 <= j < |answers| && TitleOf(answers[j]) == LimitLabel && limit == Answer(answers[j].response)
  }

  /** Some answer of the response is titled "Email Address" and has `address` as its text. */
  ghost predicate AddressFrom(answers: seq<ItemResponse>, address: string)
  {
    exists j :: 0 <= j < |answers| && TitleOf(answers[j]) == AddressLabel && address == answers[j].response
  }

  /**
   The whole scan of `limitFormSubmissionByNumber`. The limit is the number
   100 or the text of some "Form Submission Limit" answer; the address is
   the default one or the text of some "Email Address" answer.
   */
  function ScanConfig(rs: seq<Response>): (r: Config)
    ensures r.limit == Number(DefaultLimit) || exists i :: 0 <= i < |rs| && LimitFrom(rs[i], r.limit)
    ensures r.address == DefaultAddress || exists i :: 0 <= i < |rs| && AddressFrom(rs[i], r.address)
  {
    FoldResponsesOrigin(Initial, rs);
    FoldResponses(Initial, rs)
  }

  /** The address-only step of `sendRespondentNotification`. */
  function AddressStep(address: string, a: ItemResponse): string
  {
    if TitleOf(a) == AddressLabel then a.response else address
  }

  /** Left fold of `AddressStep` over the answers of one response, first answer first. */
  function FoldAddress(address: string, answers: seq<ItemResponse>): string
    decreases |answers|
  {
    if |answers| == 0 then address else AddressStep(FoldAddress(address, answers[..|answers| - 1]), answers[|answers| - 1])
  }

  /** Left fold of the address-only step over the responses, first response first. */
  function FoldAddressResponses(address: string, rs: seq<Response>): string
    decreases |rs|
  {
    if |rs| == 0 then address
    else FoldAddress(FoldAddressResponses(address, rs[..|rs| - 1]), rs[|rs| - 1])
  }

  /** The whole scan of `sendRespondentNotification`. */
  function ScanAddress(rs: seq<Response>): string
  {
    FoldAddressResponses(DefaultAddress, rs)
  }

  /** The scan as the script writes it: two nested loops over responses and answers. */
  method ScanConfigLoop(rs: seq<Response>) returns (c: Config)
    ensures c == ScanConfig(rs)
  {
    c := Initial;
    var i := 0;
    while i < |rs|
      invariant 0 <= i <= |rs|
      invariant c == FoldResponses(Initial, rs[..i])
    {
      var answers := rs[i];
      var before := c;
      var j := 0;
      while j < |answers|
        invariant 0 <= j <= |answers|
        invariant c == FoldAnswers(before, answers[..j])
      {
        assert answers[..j + 1][..j] == answers[..j];
        c := Step(c, answers[j]);
        j := j + 1;
      }
      assert answers[..j] == answers;
      assert rs[..i + 1][..i] == rs[..i];
      i := i + 1;
    }
    assert rs[..i] == rs;
  }

  /** The address scan as `sendRespondentNotification` writes it. */
  method ScanAddressLoop(rs: seq<Response>) returns (address: string)
    ensures address == ScanAddress(rs)
  {
    address := DefaultAddress;
    var i := 0;
    while i < |rs|
      invariant 0 <= i <= |rs|
      invariant address == FoldAddressResponses(DefaultAddress, rs[..i])
    {
      var answers := rs[i];
      var before := address;
      var j := 0;
      while j < |answers|
        invariant 0 <= j <= |answers|
        invariant address == FoldAddress(before, answers[..j])
      {
        assert answers[..j + 1][..j] == answers[..j];
        address := AddressStep(address, answers[j]);
        j := j + 1;
      }
      assert answers[..j] == answers;
      assert rs[..i + 1][..i] == rs[..i];
      i := i + 1;
    }
    assert rs[..i] == rs;
  }

  // ---------------------------------------------------------------------
  // Lemmas on one response
  // ---------------------------------------------------------------------

  /** Folding over a concatenation folds the first part, then the second. */
  lemma {:induction false} FoldAnswersAppend(c: Config, a: seq<ItemResponse>, b: seq<ItemResponse>)
    ensures FoldAnswers(c, a + b) == FoldAnswers(FoldAnswers(c, a), b)
    decreases |b|
  {
    if |b| == 0 {
      assert a + b == a;
    } else {
      assert (a + b)[..|a + b| - 1] == a + b[..|b| - 1];
      FoldAnswersAppend(c, a, b[..|b| - 1]);
    }
  }

  /** The limit and address a response's fold ends with come from its start or from its answers. */
  lemma {:induction false} FoldAnswersOrigin(c: Config, answers: seq<ItemResponse>)
    ensures FoldAnswers(c, answers).limit == c.limit || LimitFrom(answers, FoldAnswers(c, answers).limit)
    ensures FoldAnswers(c, answers).address == c.address || AddressFrom(answers, FoldAnswers(c, answers).address)
    decreases |answers|
  {
    if |answers| > 0 {
      var n := |answers| - 1;
      var prefix := answers[..n];
      FoldAnswersOrigin(c, prefix);
      var before := FoldAnswers(c, prefix);
      var r := FoldAnswers(c, answers);
      if TitleOf(answers[n]) != LimitLabel && before.limit != c.limit {
        var j :| 0 <= j < |prefix| && TitleOf(prefix[j]) == LimitLabel && before.limit == Answer(prefix[j].response);
        assert answers[j] == prefix[j];
      }
      if TitleOf(answers[n]) != AddressLabel && before.address != c.address {
        var j :| 0 <= j < |prefix| && TitleOf(prefix[j]) == AddressLabel && before.address == prefix[j].response;
        assert answers[j] == prefix[j];
      }
    }
  }

  /** Over many responses, the limit and address come from the start or from some response. */
  lemma {:induction false} FoldResponsesOrigin(c: Config, rs: seq<Response>)
    ensures FoldResponses(c, rs).limit == c.limit || exists i :: 0 <= i < |rs| && LimitFrom(rs[i], FoldResponses(c, rs).limit)
    ensures FoldResponses(c, rs).address == c.address || exists i :: 0 <= i < |rs| && AddressFrom(rs[i], FoldResponses(c, rs).address)
    decreases |rs|
  {
    if |rs| > 0 {
      var n := |rs| - 1;
      var prefix := rs[..n];
      FoldResponsesOrigin(c, prefix);
      var before := FoldResponses(c, prefix);
      FoldAnswersOrigin(before, rs[n]);
      if before.limit != c.limit {
        var i :| 0 <= i < |prefix| && LimitFrom(prefix[i], before.limit);
        assert rs[i] == prefix[i];
      }
      if before.address != c.address {
        var i :| 0 <= i < |prefix| && AddressFrom(prefix[i], before.address);
        assert rs[i] == prefix[i];
      }
    }
  }

  /** Without an answer titled "Email Address" the address is kept. */
  lemma {:induction false} FoldKeepsAddress(c: Config, answers: seq<ItemResponse>)
    requires forall j :: 0 <= j < |answers| ==> TitleOf(answers[j]) != AddressLabel
    ensures FoldAnswers(c, answers).address == c.address
    decreases |answers|
  {
    if |answers| > 0 {
      FoldKeepsAddress(c, answers[..|answers| - 1]);
    }
  }

  /** Without an answer titled "Form Submission Limit" the limit is kept. */
  lemma {:induction false} FoldKeepsLimit(c: Config, answers: seq<ItemResponse>)
    requires forall j :: 0 <= j < |answers| ==> TitleOf(answers[j]) != LimitLabel
    ensures FoldAnswers(c, answers).limit == c.limit
    decreases |answers|
  {
    if |answers| > 0 {
      FoldKeepsLimit(c, answers[..|answers| - 1]);
    }
  }

  /** The last answer titled "Email Address" sets the address. */
  lemma {:induction false} FoldLastAddress(c: Config, answers: seq<ItemResponse>, k: nat)
    requires k < |answers| && TitleOf(answers[k]) == AddressLabel
    requires forall j :: k < j < |answers| ==> TitleOf(answers[j]) != AddressLabel
    ensures FoldAnswers(c, answers).address == answers[k].response
    decreases |answers|
  {
    if k < |answers| - 1 {
      FoldLastAddress(c, answers[..|answers| - 1], k);
    }
  }

  /** The last answer titled "Form Submission Limit" sets the limit. */
  lemma {:induction false} FoldLastLimit(c: Config, answers: seq<ItemResponse>, k: nat)
    requires k < |answers| && TitleOf(answers[k]) == LimitLabel
    requires forall j :: k < j < |answers| ==> TitleOf(answers[j]) != LimitLabel
    ensures FoldAnswers(c, answers).limit == Answer(answers[k].response)
    decreases |answers|
  {
    if k < |answers| - 1 {
      FoldLastLimit(c, answers[..|answers| - 1], k);
    }
  }

  /** An unlabelled answer inserted anywhere in a response changes nothing. */
  lemma FoldIgnoresUnlabelled(c: Config, a: seq<ItemResponse>, x: ItemResponse, b: seq<ItemResponse>)
    requires TitleOf(x) != LimitLabel && TitleOf(x) != AddressLabel
    ensures FoldAnswers(c, a + [x] + b) == FoldAnswers(c, a + b)
  {
    FoldAnswersAppend(c, a + [x], b);
    FoldAnswersAppend(c, a, b);
    assert (a + [x])[..|a + [x]| - 1] == a;
  }

  /** The address-only fold agrees with the address of the full fold. */
  lemma {:induction false} FoldAddressAgrees(c: Config, answers: seq<ItemResponse>)
    ensures FoldAddress(c.address, answers) == FoldAnswers(c, answers).address
    decreases |answers|
  {
    if |answers| > 0 {
      FoldAddressAgrees(c, answers[..|answers| - 1]);
    }
  }

  // ---------------------------------------------------------------------
  // Lemmas on the whole response history
  // ---------------------------------------------------------------------

  /** Every answer at (i', j') strictly after (i, j), in response then item order, is not titled `wanted`. */
  ghost predicate NoLaterAnswerTitled(rs: seq<Response>, i: nat, j: nat, wanted: string)
  {
    forall i', j' :: 0 <= i' < |rs| && 0 <= j' < |rs[i']| && (i < i' || (i == i' && j < j')) ==>
      TitleOf(rs[i'][j']) != wanted
  }

  /** With no "Email Address" answer anywhere, the address is the default. */
  lemma {:induction false} ScanKeepsAddress(rs: seq<Response>)
    requires NoAnswerTitled(rs, AddressLabel)
    ensures ScanConfig(rs).address == DefaultAddress
    decreases |rs|
  {
    if |rs| > 0 {
      var last := rs[|rs| - 1];
      assert forall j :: 0 <= j < |last| ==> TitleOf(last[j]) != AddressLabel;
      assert NoAnswerTitled(rs[..|rs| - 1], AddressLabel);
      ScanKeepsAddress(rs[..|rs| - 1]);
      FoldKeepsAddress(ScanConfig(rs[..|rs| - 1]), last);
    }
  }

  /** Folding over a concatenation of histories folds the first, then the second. */
  lemma {:induction false} FoldResponsesAppend(c: Config, a: seq<Response>, b: seq<Response>)
    ensures FoldResponses(c, a + b) == FoldResponses(FoldResponses(c, a), b)
    decreases |b|
  {
    if |b| == 0 {
      assert a + b == a;
    } else {
      assert (a + b)[..|a + b| - 1] == a + b[..|b| - 1];
      FoldResponsesAppend(c, a, b[..|b| - 1]);
    }
  }

  /** Responses without a "Form Submission Limit" answer keep the limit. */
  lemma {:induction false} FoldResponsesKeepsLimit(c: Config, rs: seq<Response>)
    requires NoAnswerTitled(rs, LimitLabel)
    ensures FoldResponses(c, rs).limit == c.limit
    decreases |rs|
  {
    if |rs| > 0 {
      var last := rs[|rs| - 1];
      assert forall j :: 0 <= j < |last| ==> TitleOf(last[j]) != LimitLabel;
      assert NoAnswerTitled(rs[..|rs| - 1], LimitLabel);
      FoldResponsesKeepsLimit(c, rs[..|rs| - 1]);
      FoldKeepsLimit(FoldResponses(c, rs[..|rs| - 1]), last);
    }
  }

  /** With no "Form Submission Limit" answer anywhere, the limit is the number 100. */
  lemma ScanKeepsLimit(rs: seq<Response>)
    requires NoAnswerTitled(rs, LimitLabel)
    ensures ScanConfig(rs).limit == Number(DefaultLimit)
  {
    FoldResponsesKeepsLimit(Initial, rs);
  }

  /** Later responses without a "Form Submission Limit" answer keep the scanned limit. */
  lemma ScanAppendKeepsLimit(rs: seq<Response>, later: seq<Response>)
    requires NoAnswerTitled(later, LimitLabel)
    ensures ScanConfig(rs + later).limit == ScanConfig(rs).limit
  {
    FoldResponsesAppend(Initial, rs, later);
    FoldResponsesKeepsLimit(ScanConfig(rs), later);
  }

  /** With neither label answered anywhere, the scan yields the defaults. */
  lemma ScanDefaults(rs: seq<Response>)
    requires NoAnswerTitled(rs, LimitLabel) && NoAnswerTitled(rs, AddressLabel)
    ensures ScanConfig(rs) == Config(Number(100), "heli.patel91@gmail.com")
  {
    ScanKeepsLimit(rs);
    ScanKeepsAddress(rs);
  }

  /** The last "Email Address" answer of the whole history sets the address. */
  lemma {:induction false} ScanLastAddressWins(rs: seq<Response>, i: nat, j: nat)
    requires i < |rs| && j < |rs[i]| && TitleOf(rs[i][j]) == AddressLabel
    requires NoLaterAnswerTitled(rs, i, j, AddressLabel)
    ensures ScanConfig(rs).address == rs[i][j].response
    decreases |rs|
  {
    var n := |rs| - 1;
    var prefix := rs[..n];
    if i == n {
      FoldLastAddress(ScanConfig(prefix), rs[n], j);
    } else {
      assert forall j' :: 0 <= j' < |rs[n]| ==> TitleOf(rs[n][j']) != AddressLabel;
      assert NoLaterAnswerTitled(prefix, i, j, AddressLabel);
      assert prefix[i] == rs[i];
      ScanLastAddressWins(prefix, i, j);
      FoldKeepsAddress(ScanConfig(prefix), rs[n]);
    }
  }

  /** The last "Form Submission Limit" answer of the whole history sets the limit. */
  lemma {:induction false} ScanLastLimitWins(rs: seq<Response>, i: nat, j: nat)
    requires i < |rs| && j < |rs[i]| && TitleOf(rs[i][j]) == LimitLabel
    requires NoLaterAnswerTitled(rs, i, j, LimitLabel)
    ensures ScanConfig(rs).limit == Answer(rs[i][j].response)
    decreases |rs|
  {
    var n := |rs| - 1;
    var prefix := rs[..n];
    if i == n {
      FoldLastLimit(ScanConfig(prefix), rs[n], j);
    } else {
      assert forall j' :: 0 <= j' < |rs[n]| ==> TitleOf(rs[n][j']) != LimitLabel;
      assert NoLaterAnswerTitled(prefix, i, j, LimitLabel);
      assert prefix[i] == rs[i];
      ScanLastLimitWins(prefix, i, j);
      FoldKeepsLimit(ScanConfig(prefix), rs[n]);
    }
  }

  /**
   Inserting an unlabelled answer at position j of response i leaves the
   scanned limit and address unchanged.
   */
  lemma {:induction false} ScanIgnoresUnlabelled(rs: seq<Response>, i: nat, j: nat, x: ItemResponse)
    requires i < |rs| && j <= |rs[i]|
    requires TitleOf(x) != LimitLabel && TitleOf(x) != AddressLabel
    ensures ScanConfig(rs[i := rs[i][..j] + [x] + rs[i][j..]]) == ScanConfig(rs)
    decreases |rs|
  {
    var rs' := rs[i := rs[i][..j] + [x] + rs[i][j..]];
    var n := |rs| - 1;
    if i == n {
      assert rs'[..n] == rs[..n];
      FoldIgnoresUnlabelled(ScanConfig(rs[..n]), rs[i][..j], x, rs[i][j..]);
      assert rs[i][..j] + rs[i][j..] == rs[i];
    } else {
      assert rs'[..n] == rs[..n][i := rs[i][..j] + [x] + rs[i][j..]];
      assert rs[..n][i] == rs[i];
      ScanIgnoresUnlabelled(rs[..n], i, j, x);
      assert rs'[n] == rs[n];
    }
  }

  /** The two scans of the script agree on the address. */
  lemma {:induction false} ScanAddressAgrees(rs: seq<Response>)
    ensures ScanAddress(rs) == ScanConfig(rs).address
    decreases |rs|
  {
    if |rs| > 0 {
      ScanAddressAgrees(rs[..|rs| - 1]);
      FoldAddressAgrees(ScanConfig(rs[..|rs| - 1]), rs[|rs| - 1]);
    }
  }
}
