/**
 Blind fill: with auto-evict the reconcile loop re-adds the whole desired list, two contacts per lock
 hold, retrying full passes a bounded number of times. The desired list is fixed and has n contacts;
 answers(i) is the radio's answer to the i-th add command.
 */
module AutoevictFill {
  import opened Common
  import opened ContactReconcile

  const MAX_RETRIES: nat := 3

  datatype FillExit = Filled | GaveUp | StoppedFull

  datatype Outcome = Outcome(exit: FillExit, retries: nat, sent: nat)

  /** processed counts the contacts the hold got through; a full table stops it before counting. */
  datatype Hold = Hold(processed: nat, failed: bool, full: bool)

  /** Commands sent in a number of whole passes. */
  function Before(n: nat, passes: nat): nat
  {
    passes * n
  }

  /** One lock hold: up to two contacts from position idx on. */
  function FillHold(n: nat, answers: nat -> Answer, idx: nat, sent: nat): (h: Hold)
    requires idx < n
  {
    var a := answers(sent);
    if a.TableFull? then Hold(0, true, true)
    else if idx + 1 == n then Hold(1, !a.Ok?, false)
    else
      var b := answers(sent + 1);
      if b.TableFull? then Hold(1, true, true)
      else Hold(2, !a.Ok? || !b.Ok?, false)
  }

  /** The loop from a given position; it terminates because each hold advances or ends the pass. */
  function Fill(n: nat, answers: nat -> Answer, idx: nat, retries: nat, sent: nat): (o: Outcome)
    requires idx < n && retries < MAX_RETRIES
    decreases MAX_RETRIES - retries, n - idx
  {
    var h := FillHold(n, answers, idx, sent);
    if h.full then Outcome(StoppedFull, retries, sent + h.processed + 1)
    else
      var sent' := sent + h.processed;
      if idx + h.processed < n then Fill(n, answers, idx + h.processed, retries, sent')
      else if !h.failed then Outcome(Filled, retries, sent')
      else if retries + 1 >= MAX_RETRIES then Outcome(GaveUp, retries + 1, sent')
      else Fill(n, answers, 0, retries + 1, sent')
  }

  /** The whole run; an empty list is complete at once. */
  function FillAll(n: nat, answers: nat -> Answer): (o: Outcome)
  {
    if n == 0 then Outcome(Filled, 0, 0) else Fill(n, answers, 0, 0, 0)
  }

  /** The commands go round and round the list. */
  ghost predicate InOrder(n: nat, attempts: seq<nat>)
    requires n > 0
  {
    forall i :: 0 <= i < |attempts| ==> attempts[i] == i % n
  }

  lemma OneMoreInOrder(n: nat, attempts: seq<nat>, pass: nat, idx: nat)
    requires idx < n && |attempts| == Before(n, pass) + idx && InOrder(n, attempts)
    ensures InOrder(n, attempts + [idx])
  {
    PassPosition(n, pass, idx);
  }

  /** The source's loop. `attempts` records which contact each command was for. */
  method BlindFill(n: nat, answers: nat -> Answer) returns (o: Outcome, attempts: seq<nat>)
    ensures o == FillAll(n, answers)
    ensures |attempts| == o.sent
    ensures n > 0 ==> InOrder(n, attempts)
    ensures |attempts| <= Before(n, MAX_RETRIES)
    ensures !o.exit.StoppedFull? ==> forall c: nat :: c < n ==> c in attempts
  {
    if n == 0 {
      return Outcome(Filled, 0, 0), [];
    }
    var idx: nat, retries: nat := 0, 0;
    attempts := [];
    while true
      invariant idx < n && retries < MAX_RETRIES
      invariant |attempts| == Before(n, retries) + idx
      invariant InOrder(n, attempts)
      invariant Fill(n, answers, 0, 0, 0) == Fill(n, answers, idx, retries, |attempts|)
      decreases MAX_RETRIES - retries, n - idx
    {
      var processed, passFailed, tableFull;
      processed, passFailed, tableFull, attempts := FillBatch(n, answers, idx, retries, attempts);
      if tableFull {
        o := Outcome(StoppedFull, retries, |attempts|);
        WithinPasses(n, retries, idx + processed + 1);
        return;
      }
      idx := idx + processed;
      if idx >= n {
        AllAttempted(n, attempts, retries);
        if !passFailed {
          WithinPasses(n, retries, n);
          o := Outcome(Filled, retries, |attempts|);
          return;
        }
        if retries + 1 >= MAX_RETRIES {
          WithinPasses(n, retries, n);
          o := Outcome(GaveUp, retries + 1, |attempts|);
          return;
        }
        NextPass(n, retries);
        retries, idx := retries + 1, 0;
      }
    }
  }

  /** One lock hold: the slice of the list the budget allows, stopping at a full table. */
  method FillBatch(n: nat, answers: nat -> Answer, idx: nat, ghost retries: nat, attempts0: seq<nat>)
    returns (processed: nat, passFailed: bool, tableFull: bool, attempts: seq<nat>)
    requires idx < n && |attempts0| == Before(n, retries) + idx
    requires InOrder(n, attempts0)
    ensures Hold(processed, passFailed, tableFull) == FillHold(n, answers, idx, |attempts0|)
    ensures |attempts| == |attempts0| + processed + (if tableFull then 1 else 0)
    ensures InOrder(n, attempts)
  {
    processed, passFailed, tableFull, attempts := 0, false, false, attempts0;
    while processed < BATCH_SIZE && idx + processed < n && !tableFull
      invariant 0 <= processed <= 2 && idx + processed <= n
      invariant |attempts| == |attempts0| + processed + (if tableFull then 1 else 0)
      invariant tableFull ==> processed < 2 && idx + processed < n
      invariant InOrder(n, attempts)
      invariant processed == 0 && !tableFull ==> !passFailed
      invariant processed == 1 && !tableFull ==>
        (passFailed <==> !answers(|attempts0|).Ok?) && !answers(|attempts0|).TableFull?
      invariant tableFull ==> FillHold(n, answers, idx, |attempts0|) == Hold(processed, passFailed, true)
      invariant processed == 2 && !tableFull ==> FillHold(n, answers, idx, |attempts0|) == Hold(2, passFailed, false)
      decreases BATCH_SIZE - processed, !tableFull
    {
      var a := answers(|attempts|);
      OneMoreInOrder(n, attempts, retries, idx + processed);
      attempts := attempts + [idx + processed];
      if a.TableFull? {
        passFailed, tableFull := true, true;
      } else {
        if !a.Ok? {
          passFailed := true;
        }
        processed := processed + 1;
      }
    }
  }

  lemma PassPosition(n: nat, pass: nat, idx: nat)
    requires idx < n
    ensures (Before(n, pass) + idx) % n == idx
  {
    DivModUnique(pass * n + idx, n, pass, idx);
  }

  lemma NextPass(n: nat, pass: nat)
    ensures Before(n, pass + 1) == Before(n, pass) + n
  {
  }

  lemma WithinPasses(n: nat, pass: nat, k: nat)
    requires pass < MAX_RETRIES && k <= n
    ensures Before(n, pass) + k <= Before(n, MAX_RETRIES)
  {
    assert (pass + 1) * n <= MAX_RETRIES * n;
  }

  lemma AllAttempted(n: nat, attempts: seq<nat>, pass: nat)
    requires n > 0 && |attempts| == Before(n, pass) + n
    requires InOrder(n, attempts)
    ensures forall c: nat :: c < n ==> c in attempts
  {
    forall c: nat | c < n
      ensures c in attempts
    {
      assert attempts[c] == c;
    }
  }

  /** Full passes made by a run that was not stopped by a full table. */
  function Passes(o: Outcome): nat
  {
    if o.exit.Filled? then o.retries + 1 else o.retries
  }

  /** Without a full-table answer the commands make up one, two or three whole passes over the list. */
  lemma {:induction false} WholePasses(n: nat, answers: nat -> Answer, idx: nat, retries: nat)
    requires idx < n && retries < MAX_RETRIES
    ensures var o := Fill(n, answers, idx, retries, Before(n, retries) + idx);
      !o.exit.StoppedFull? ==> 1 <= Passes(o) <= MAX_RETRIES && o.sent == Before(n, Passes(o))
    decreases MAX_RETRIES - retries, n - idx
  {
    var h := FillHold(n, answers, idx, Before(n, retries) + idx);
    if !h.full {
      if idx + h.processed < n {
        WholePasses(n, answers, idx + h.processed, retries);
      } else {
        NextPass(n, retries);
        if h.failed && retries + 1 < MAX_RETRIES {
          WholePasses(n, answers, 0, retries + 1);
        }
      }
    }
  }

  /** Every contact was accepted in the pass that ended the run. */
  ghost predicate AcceptedInLastPass(n: nat, answers: nat -> Answer, o: Outcome)
  {
    o.sent >= n && forall i: nat :: o.sent - n <= i < o.sent ==> answers(i).Ok?
  }

  predicate Even(n: nat)
  {
    n % 2 == 0
  }

  /** The answers of the hold that ended with command number `sent` were good. */
  ghost predicate LastHoldAccepted(n: nat, answers: nat -> Answer, sent: nat)
  {
    sent >= 1 && answers(sent - 1).Ok? && (Even(n) ==> sent >= 2 && answers(sent - 2).Ok?)
  }

  /** A hold that started at an even position ends at one, or ends the pass; without failure its answers were good. */
  lemma HoldOutcome(n: nat, answers: nat -> Answer, idx: nat, sent: nat)
    requires idx < n && Even(idx)
    ensures var h := FillHold(n, answers, idx, sent);
      && (!h.full && idx + h.processed < n ==> Even(idx + h.processed))
      && (!h.full && !h.failed && idx + h.processed >= n ==> LastHoldAccepted(n, answers, sent + h.processed))
  {
  }

  /** "Filled" vouches for the last lock hold only. */
  lemma {:induction false} FilledMeansLastHoldAccepted(n: nat, answers: nat -> Answer, idx: nat, retries: nat,
                                                       sent: nat)
    requires idx < n && retries < MAX_RETRIES && Even(idx)
    ensures var o := Fill(n, answers, idx, retries, sent);
      o.exit.Filled? ==> LastHoldAccepted(n, answers, o.sent)
    decreases MAX_RETRIES - retries, n - idx
  {
    var h := FillHold(n, answers, idx, sent);
    HoldOutcome(n, answers, idx, sent);
    if !h.full {
      if idx + h.processed < n {
        FilledMeansLastHoldAccepted(n, answers, idx + h.processed, retries, sent + h.processed);
      } else if h.failed && retries + 1 < MAX_RETRIES {
        FilledMeansLastHoldAccepted(n, answers, 0, retries + 1, sent + h.processed);
      }
    }
  }

  /** The last lock hold of pass number p + 1 over n contacts was accepted: its one or two answers were OK. */
  ghost predicate PassAccepted(n: nat, answers: nat -> Answer, p: nat)
    requires n > 0
  {
    answers(p * n + n - 1).Ok? && (n % 2 == 0 ==> answers(p * n + n - 2).Ok?)
  }

  lemma PassPositions(n: nat, p: nat)
    requires n > 0
    ensures Before(n, p) == p * n && Before(n, p + 1) == p * n + n
    ensures n % 2 == 0 ==> n >= 2
  {
  }

  lemma PassAcceptedMeans(n: nat, answers: nat -> Answer, p: nat)
    requires n > 0
    ensures PassAccepted(n, answers, p) <==> LastHoldAccepted(n, answers, Before(n, p + 1))
  {
    PassPositions(n, p);
  }

  /** Where a pass that meets no full table leads: done, given up, or once more from the start. */
  ghost function AfterPass(n: nat, answers: nat -> Answer, retries: nat): Outcome
    requires n > 0 && retries < MAX_RETRIES
  {
    if LastHoldAccepted(n, answers, Before(n, retries + 1)) then Outcome(Filled, retries, Before(n, retries + 1))
    else if retries + 1 >= MAX_RETRIES then Outcome(GaveUp, retries + 1, Before(n, retries + 1))
    else Fill(n, answers, 0, retries + 1, Before(n, retries + 1))
  }

  /** At the end of the list a hold failed exactly if one of its one or two answers was not OK. */
  lemma LastHoldOutcome(n: nat, answers: nat -> Answer, idx: nat, sent: nat)
    requires idx < n && Even(idx)
    ensures var h := FillHold(n, answers, idx, sent);
      !h.full && idx + h.processed >= n ==>
        idx + h.processed == n && (LastHoldAccepted(n, answers, sent + h.processed) <==> !h.failed)
  {
  }

  lemma {:induction false} OnePass(n: nat, answers: nat -> Answer, idx: nat, retries: nat)
    requires idx < n && retries < MAX_RETRIES && Even(idx)
    ensures var o := Fill(n, answers, idx, retries, Before(n, retries) + idx);
      o.exit.StoppedFull? || o == AfterPass(n, answers, retries)
    decreases n - idx
  {
    var sent := Before(n, retries) + idx;
    var h := FillHold(n, answers, idx, sent);
    HoldOutcome(n, answers, idx, sent);
    LastHoldOutcome(n, answers, idx, sent);
    NextPass(n, retries);
    if !h.full && idx + h.processed < n {
      OnePass(n, answers, idx + h.processed, retries);
    }
  }

  /**
   Unless a full table stops it, the fill makes a second pass exactly if the first one's last hold had a
   refusal, a third exactly if the second one's had, and gives up after three such passes.
   */
  lemma PassByPass(n: nat, answers: nat -> Answer)
    requires n > 0 && !FillAll(n, answers).exit.StoppedFull?
    ensures FillAll(n, answers) ==
      if PassAccepted(n, answers, 0) then Outcome(Filled, 0, n)
      else if PassAccepted(n, answers, 1) then Outcome(Filled, 1, 2 * n)
      else if PassAccepted(n, answers, 2) then Outcome(Filled, 2, 3 * n)
      else Outcome(GaveUp, 3, 3 * n)
  {
    forall p: nat | p < 3
      ensures PassAccepted(n, answers, p) <==> LastHoldAccepted(n, answers, Before(n, p + 1))
    {
      PassAcceptedMeans(n, answers, p);
    }
    OnePass(n, answers, 0, 0);
    OnePass(n, answers, 0, 1);
    OnePass(n, answers, 0, 2);
  }

  /** Every outcome's last command: a full table stops the fill at once, and nothing else does before a pass ends. */
  lemma {:induction false} StopsAtTheFirstFullTable(n: nat, answers: nat -> Answer, idx: nat, retries: nat, sent: nat)
    requires idx < n && retries < MAX_RETRIES
    ensures var o := Fill(n, answers, idx, retries, sent);
      && o.sent > sent && (o.exit.StoppedFull? <==> answers(o.sent - 1).TableFull?)
      && (forall i: nat :: sent <= i < o.sent - 1 ==> !answers(i).TableFull?)
    decreases MAX_RETRIES - retries, n - idx
  {
    var h := FillHold(n, answers, idx, sent);
    if !h.full {
      if idx + h.processed < n {
        StopsAtTheFirstFullTable(n, answers, idx + h.processed, retries, sent + h.processed);
      } else if h.failed && retries + 1 < MAX_RETRIES {
        StopsAtTheFirstFullTable(n, answers, 0, retries + 1, sent + h.processed);
      }
    }
  }

  lemma {:induction false} CooperatingRadioFillsInOnePass(n: nat, answers: nat -> Answer, idx: nat, retries: nat,
                                                          sent: nat)
    requires idx < n && retries < MAX_RETRIES
    requires forall i: nat :: i >= sent ==> answers(i).Ok?
    ensures Fill(n, answers, idx, retries, sent) == Outcome(Filled, retries, sent + n - idx)
    decreases n - idx
  {
    if idx + 2 < n {
      CooperatingRadioFillsInOnePass(n, answers, idx + 2, retries, sent + 2);
    }
  }

  ghost predicate FilledIsHonest(n: nat)
  {
    forall answers: nat -> Answer :: FillAll(n, answers).exit.Filled? ==>
      AcceptedInLastPass(n, answers, FillAll(n, answers))
  }

  /**
   A failure seen in an earlier hold of the pass is forgotten by the next one. So "filled" means that
   every contact was accepted exactly for lists that fit one hold.
   */
  lemma FilledIsHonestExactlyForOneHold(n: nat)
    ensures FilledIsHonest(n) <==> n <= 2
  {
    if n <= 2 {
      forall answers: nat -> Answer | FillAll(n, answers).exit.Filled?
        ensures AcceptedInLastPass(n, answers, FillAll(n, answers))
      {
        OneHoldIsHonest(n, answers);
      }
    } else {
      var answers: nat -> Answer := i => if i == 0 then Error(false) else Ok;
      FirstRefusalIsForgotten(n, answers);
    }
  }

  lemma OneHoldIsHonest(n: nat, answers: nat -> Answer)
    requires n <= 2 && FillAll(n, answers).exit.Filled?
    ensures AcceptedInLastPass(n, answers, FillAll(n, answers))
  {
    if n > 0 {
      var o := FillAll(n, answers);
      WholePasses(n, answers, 0, 0);
      FilledMeansLastHoldAccepted(n, answers, 0, 0, 0);
      AtLeastOnePass(n, Passes(o));
      LastHoldIsTheList(n, answers, o.sent);
    }
  }

  lemma AtLeastOnePass(n: nat, passes: nat)
    requires passes >= 1
    ensures Before(n, passes) >= n
  {
    MulAtLeast(passes, n);
  }

  lemma LastHoldIsTheList(n: nat, answers: nat -> Answer, sent: nat)
    requires 1 <= n <= 2 && sent >= n && LastHoldAccepted(n, answers, sent)
    ensures forall i: nat :: sent - n <= i < sent ==> answers(i).Ok?
  {
    forall i: nat | sent - n <= i < sent
      ensures answers(i).Ok?
    {
      assert i == sent - 1 || i == sent - 2;
    }
  }

  /** With more than two contacts, a refusal of the first one alone goes unnoticed. */
  lemma FirstRefusalIsForgotten(n: nat, answers: nat -> Answer)
    requires n > 2 && answers(0) == Error(false) && forall i: nat :: i > 0 ==> answers(i).Ok?
    ensures FillAll(n, answers) == Outcome(Filled, 0, n) && !AcceptedInLastPass(n, answers, FillAll(n, answers))
  {
    CooperatingRadioFillsInOnePass(n, answers, 2, 0, 2);
    assert FillHold(n, answers, 0, 0) == Hold(2, true, false);
    assert !answers(0).Ok?;
  }
}
