/** Instalments of an enrollment: the paid flag and the payment time that
    `EnrollmentInstallment.save` keeps. Amounts are integer satang; times are
    timestamps supplied by the caller (the clock is not modelled). */
module Installments {
  import opened Wrappers

  datatype Installment = Installment(
    amountDue: Option<int>,
    amountPaid: Option<int>,
    isPaid: bool,
    paidAt: Option<int>)

  function Due(i: Installment): int { i.amountDue.GetOr(0) }
  function Paid(i: Installment): int { i.amountPaid.GetOr(0) }

  /** An instalment is settled when something is due and at least that much
      has been paid. */
  predicate Settled(i: Installment) {
    Due(i) > 0 && Paid(i) >= Due(i)
  }

  /** `EnrollmentInstallment.save` at time `now`. For a non-negative amount due
      the flag says exactly whether the instalment is settled. A negative
      amount due with at least that much paid leaves the flag as it was (the
      code has no branch for it). The payment time is stamped when a save finds
      the instalment settled and no time recorded, and is never overwritten or
      cleared. Amounts are untouched. */
  function SaveInstallment(i: Installment, now: int): (r: Installment)
    ensures Due(i) >= 0 ==> (r.isPaid <==> Settled(i))
    ensures Due(i) < 0 ==> (r.isPaid <==> i.isPaid && Paid(i) >= Due(i))
    ensures i.paidAt.Some? ==> r.paidAt == i.paidAt
    ensures i.paidAt.None? ==> (r.paidAt.Some? <==> Settled(i)) && (r.paidAt.Some? ==> r.paidAt.value == now)
    ensures r.amountDue == i.amountDue && r.amountPaid == i.amountPaid
  {
    var paid, due := Paid(i), Due(i);
    if paid >= due && due > 0 then
      i.(isPaid := true, paidAt := if i.paidAt.None? then Some(now) else i.paidAt)
    else if due == 0 then i.(isPaid := false)
    else if paid < due then i.(isPaid := false)
    else i
  }

  /** A settled instalment's flag is set and stays set through later saves
      that leave the amounts alone. */
  lemma SettledStaysPaid(i: Installment, t1: int, t2: int)
    requires Settled(i)
    ensures SaveInstallment(i, t1).isPaid
    ensures SaveInstallment(SaveInstallment(i, t1), t2) == SaveInstallment(i, t1)
  {
  }

  /** An edit of the amounts, saved at a time. */
  datatype Edit = Edit(amountDue: Option<int>, amountPaid: Option<int>, at: int)

  /** The instalment after each edit in turn is applied and saved. */
  function Replay(i: Installment, edits: seq<Edit>): (r: Installment)
    decreases |edits|
  {
    if |edits| == 0 then i
    else
      var e := edits[0];
      Replay(SaveInstallment(i.(amountDue := e.amountDue, amountPaid := e.amountPaid), e.at), edits[1..])
  }

  /** The time of the first edit that leaves the instalment settled, if any. */
  function FirstSettledAt(edits: seq<Edit>): (r: Option<int>)
    ensures r.Some? <==> exists k :: 0 <= k < |edits| && Settles(edits[k])
    decreases |edits|
  {
    if |edits| == 0 then None
    else if Settles(edits[0]) then Some(edits[0].at)
    else
      assert forall k :: 1 <= k < |edits| ==> edits[k] == edits[1..][k - 1];
      FirstSettledAt(edits[1..])
  }

  predicate Settles(e: Edit) {
    e.amountDue.GetOr(0) > 0 && e.amountPaid.GetOr(0) >= e.amountDue.GetOr(0)
  }

  /** Over any history of edits, an instalment that started without a payment
      time ends with the time of the first save that found it settled, or none
      if no save ever did: the stamp is set once and then kept, even when the
      instalment later stops being settled. */
  lemma {:induction false} PaidAtIsFirstSettlement(i: Installment, edits: seq<Edit>)
    requires i.paidAt.None?
    ensures Replay(i, edits).paidAt == FirstSettledAt(edits)
    decreases |edits|
  {
    if |edits| > 0 {
      var e := edits[0];
      var j := SaveInstallment(i.(amountDue := e.amountDue, amountPaid := e.amountPaid), e.at);
      if Settles(e) {
        PaidAtKept(j, edits[1..]);
      } else {
        PaidAtIsFirstSettlement(j, edits[1..]);
      }
    }
  }

  /** Once stamped, the payment time survives any further edits. */
  lemma {:induction false} PaidAtKept(i: Installment, edits: seq<Edit>)
    requires i.paidAt.Some?
    ensures Replay(i, edits).paidAt == i.paidAt
    decreases |edits|
  {
    if |edits| > 0 {
      var e := edits[0];
      PaidAtKept(SaveInstallment(i.(amountDue := e.amountDue, amountPaid := e.amountPaid), e.at), edits[1..]);
    }
  }
}
