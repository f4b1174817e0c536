/** What the form hands over on submit (components/PettyCashForm.tsx,
    `handleSubmit`): the payee names joined for the confirmation, and a
    snapshot of the state whose attachments are reduced to their names. */
module Submission {
  import opened Types
  import Totals
  import PettyCashForm

  /** An expense row as submitted: the same fields, the file replaced by its
      name (`None` standing for `undefined`). */
  datatype SubmittedItem = SubmittedItem(
    id: Id,
    date: string,
    description: string,
    amount: nat,
    kind: ExpenseType,
    attachment: Option<string>)

  /** `{ ...e, attachment: e.attachment?.name }` */
  function Project(e: ExpenseItem): SubmittedItem
  {
    SubmittedItem(e.id, e.date, e.description, e.amount, e.kind, AttachmentName(e.attachment))
  }

  /** The submitted rows: same length and order, each row equal to the state's
      row in every field except the attachment, which becomes the file's name
      or nothing. */
  function ProjectAll(es: seq<ExpenseItem>): (r: seq<SubmittedItem>)
    ensures |r| == |es|
    ensures forall i :: 0 <= i < |es| ==>
      && r[i].id == es[i].id && r[i].date == es[i].date
      && r[i].description == es[i].description
      && r[i].amount == es[i].amount && r[i].kind == es[i].kind
    ensures forall i :: 0 <= i < |es| ==>
      (r[i].attachment.Some? <==> es[i].attachment.Attached?)
    ensures forall i :: 0 <= i < |es| && es[i].attachment.Attached? ==>
      r[i].attachment.value == es[i].attachment.file.name
  {
    seq(|es|, i requires 0 <= i < |es| => Project(es[i]))
  }

  /** `Array.prototype.join`: the strings in order with `sep` between neighbours. */
  function Join(xs: seq<string>, sep: string): string
  {
    if |xs| == 0 then ""
    else if |xs| == 1 then xs[0]
    else Join(xs[..|xs| - 1], sep) + sep + xs[|xs| - 1]
  }

  /** Total length of the strings. */
  function LengthSum(xs: seq<string>): nat
  {
    if xs == [] then 0 else LengthSum(xs[..|xs| - 1]) + |xs[|xs| - 1]|
  }

  /** Joining at any inner position splits the result at one separator: each
      string appears whole, in list order, with exactly one separator between
      neighbours. */
  lemma {:induction false} JoinSplit(xs: seq<string>, sep: string, i: nat)
    requires 0 < i < |xs|
    ensures Join(xs, sep) == Join(xs[..i], sep) + sep + Join(xs[i..], sep)
    decreases |xs|
  {
    var n := |xs|;
    var last := xs[n - 1];
    if i == n - 1 {
      assert xs[i..] == [last];
    } else {
      var init := xs[..n - 1];
      JoinSplit(init, sep, i);
      assert init[..i] == xs[..i];
      assert init[i..] == xs[i..n - 1];
      var tail := xs[i..];
      assert tail[..|tail| - 1] == xs[i..n - 1];
      assert tail[|tail| - 1] == last;
    }
  }

  /** The joined text is as long as the strings plus one separator per gap. */
  lemma {:induction false} JoinLength(xs: seq<string>, sep: string)
    requires |xs| >= 1
    ensures |Join(xs, sep)| == LengthSum(xs) + |sep| * (|xs| - 1)
  {
    if |xs| > 1 {
      JoinLength(xs[..|xs| - 1], sep);
      assert xs[..|xs| - 1][..|xs| - 2] == xs[..|xs| - 2];
    } else {
      assert xs[..0] == [];
    }
  }

  /** The names shown as "paid to", in list order. */
  function PayeeNames(ps: seq<Payee>): (names: seq<string>)
    ensures |names| == |ps|
    ensures forall i :: 0 <= i < |ps| ==> names[i] == ps[i].name
  {
    seq(|ps|, i requires 0 <= i < |ps| => ps[i].name)
  }

  /** The record handed to the confirmation and to the diagnostic log. */
  datatype Payload = Payload(
    pettyCashNumber: string,
    payees: seq<Payee>,
    payeeNames: string,
    initialAmountDate: string,
    initialAmount: nat,
    expenses: seq<SubmittedItem>,
    totalAmount: int,
    remainingBalance: int)

  /** `handleSubmit`, minus the locale formatting of its message. */
  function Submit(st: PettyCashForm.Ledger): (p: Payload)
    ensures p.pettyCashNumber == st.pettyCashNumber && p.payees == st.payees
    ensures p.initialAmountDate == st.initialAmountDate && p.initialAmount == st.initialAmount
    ensures p.expenses == ProjectAll(st.expenses)
    ensures p.payeeNames == Join(PayeeNames(st.payees), ", ")
    ensures p.totalAmount == Totals.Total(st.expenses)
    ensures p.remainingBalance == p.initialAmount - p.totalAmount
  {
    Payload(
      st.pettyCashNumber,
      st.payees,
      Join(PayeeNames(st.payees), ", "),
      st.initialAmountDate,
      st.initialAmount,
      ProjectAll(st.expenses),
      Totals.Total(st.expenses),
      Totals.Remaining(st.initialAmount, st.expenses))
  }

  /** The net total a reader recomputes from the submitted rows. */
  function SubmittedTotal(items: seq<SubmittedItem>): int
  {
    if items == [] then 0
    else SubmittedTotal(items[..|items| - 1]) + Totals.Signed(items[|items| - 1].kind, items[|items| - 1].amount)
  }

  lemma {:induction false} ProjectedTotal(es: seq<ExpenseItem>)
    ensures SubmittedTotal(ProjectAll(es)) == Totals.Total(es)
  {
    if es != [] {
      var p := es[..|es| - 1];
      ProjectedTotal(p);
      assert ProjectAll(es)[..|es| - 1] == ProjectAll(p);
    }
  }

  /** The submitted total agrees with the submitted rows: dropping the files
      loses nothing the totals depend on. */
  lemma PayloadTotalsAgree(st: PettyCashForm.Ledger)
    ensures Submit(st).totalAmount == SubmittedTotal(Submit(st).expenses)
  {
    ProjectedTotal(st.expenses);
  }

  /** The "paid to" text: the payee names in list order, split by ", "
      wherever the payee list is split, and exactly two characters longer than
      the names per gap between neighbours. */
  lemma SubmittedPayeeNames(st: PettyCashForm.Ledger)
    ensures |st.payees| == 1 ==> Submit(st).payeeNames == st.payees[0].name
    ensures forall i :: 0 < i < |st.payees| ==>
      Submit(st).payeeNames
        == Join(PayeeNames(st.payees[..i]), ", ") + ", " + Join(PayeeNames(st.payees[i..]), ", ")
    ensures |st.payees| >= 1 ==>
      |Submit(st).payeeNames| == LengthSum(PayeeNames(st.payees)) + 2 * (|st.payees| - 1)
  {
    var names := PayeeNames(st.payees);
    forall i | 0 < i < |st.payees|
      ensures Submit(st).payeeNames
        == Join(PayeeNames(st.payees[..i]), ", ") + ", " + Join(PayeeNames(st.payees[i..]), ", ")
    {
      JoinSplit(names, ", ", i);
      assert names[..i] == PayeeNames(st.payees[..i]);
      assert names[i..] == PayeeNames(st.payees[i..]);
    }
    if |st.payees| >= 1 {
      JoinLength(names, ", ");
    }
  }
}
