/** The form's state and its handlers (components/PettyCashForm.tsx). Each
    React state update is a pure function from the old value to the new one;
    `Step` dispatches one user action, and `Run` replays a session of them. */
module PettyCashForm {
  import opened Types
  import Normalizer
  import Keyed
  import ExpenseRow
  import Totals

  /** Everything the form holds in state, minus the export busy flag. */
  datatype Ledger = Ledger(
    pettyCashNumber: string,
    initialAmount: nat,
    initialAmountDate: string,
    payees: seq<Payee>,
    expenses: seq<ExpenseItem>)

  /** What every reachable state satisfies: both lists non-empty, ids unique
      within each list, every amount within the normaliser's cap. */
  predicate Valid(st: Ledger)
  {
    && |st.payees| >= 1
    && |st.expenses| >= 1
    && Keyed.UniqueKeys(st.payees, PayeeKey)
    && Keyed.UniqueKeys(st.expenses, ItemKey)
    && st.initialAmount <= Normalizer.Cap
    && forall i :: 0 <= i < |st.expenses| ==> st.expenses[i].amount <= Normalizer.Cap
  }

  /** The initial state. The two ids stand for `crypto.randomUUID()` and
      `today` for the current date the form pre-fills. */
  function Init(payeeId: Id, itemId: Id, today: string): (st: Ledger)
    ensures Valid(st)
    ensures |st.payees| == 1 && st.payees[0].name == ""
    ensures |st.expenses| == 1
    ensures st.expenses[0].date == "" && st.expenses[0].description == ""
    ensures st.expenses[0].amount == 0 && st.expenses[0].kind == Cost
    ensures st.expenses[0].attachment == Null
    ensures st.pettyCashNumber == "" && st.initialAmount == 0 && st.initialAmountDate == today
  {
    Ledger("", 0, today, [NewPayee(payeeId)], [NewItem(itemId)])
  }

  // ---------------------------------------------------------------------
  // Payees

  /** `handleAddPayee`: a blank payee with a new id goes at the end. */
  function AddPayee(ps: seq<Payee>, newId: Id): (r: seq<Payee>)
    requires Keyed.Fresh(ps, PayeeKey, newId)
    ensures |r| == |ps| + 1 && r[..|ps|] == ps
    ensures r[|ps|].id == newId && r[|ps|].name == ""
    ensures Keyed.UniqueKeys(ps, PayeeKey) ==> Keyed.UniqueKeys(r, PayeeKey)
  {
    assert PayeeKey(NewPayee(newId)) == newId;
    ps + [NewPayee(newId)]
  }

  /** `handleRemovePayee`: keep the payees whose id differs, in order. The
      handler itself has no floor: only the disabled button keeps one payee. */
  function RemovePayee(ps: seq<Payee>, id: Id): (r: seq<Payee>)
    ensures forall i :: 0 <= i < |r| ==> r[i] in ps && r[i].id != id
    ensures forall i :: 0 <= i < |ps| && ps[i].id != id ==> ps[i] in r
  {
    Keyed.RemoveKey(ps, PayeeKey, id)
  }

  /** `handlePayeeChange`: every payee with that id takes the new name;
      ids, order and all other payees are untouched. */
  function RenamePayee(ps: seq<Payee>, id: Id, name: string): (r: seq<Payee>)
    ensures |r| == |ps|
    ensures forall i :: 0 <= i < |ps| ==> r[i].id == ps[i].id
    ensures forall i :: 0 <= i < |ps| ==> r[i].name == if ps[i].id == id then name else ps[i].name
    ensures Keyed.UniqueKeys(ps, PayeeKey) ==> Keyed.UniqueKeys(r, PayeeKey)
  {
    seq(|ps|, i requires 0 <= i < |ps| => if ps[i].id == id then ps[i].(name := name) else ps[i])
  }

  /** Two renames of the same payee: the second one wins. */
  lemma RenameLastWins(ps: seq<Payee>, id: Id, a: string, b: string)
    ensures RenamePayee(RenamePayee(ps, id, a), id, b) == RenamePayee(ps, id, b)
  {
  }

  /** Adding a payee and removing it again restores the list. */
  lemma AddThenRemovePayee(ps: seq<Payee>, newId: Id)
    requires Keyed.Fresh(ps, PayeeKey, newId)
    ensures RemovePayee(AddPayee(ps, newId), newId) == ps
  {
    Keyed.AddThenRemove(ps, NewPayee(newId), PayeeKey);
  }

  /** The remove handler alone would empty a one-payee list. */
  lemma RawRemoveCanEmpty(p: Payee)
    ensures RemovePayee([p], p.id) == []
  {
  }

  // ---------------------------------------------------------------------
  // Expense rows

  /** `handleAddItem`: a blank row with a new id goes at the end. */
  function AddItem(es: seq<ExpenseItem>, newId: Id): (r: seq<ExpenseItem>)
    requires Keyed.Fresh(es, ItemKey, newId)
    ensures |r| == |es| + 1 && r[..|es|] == es
    ensures r[|es|] == NewItem(newId)
    ensures Keyed.UniqueKeys(es, ItemKey) ==> Keyed.UniqueKeys(r, ItemKey)
  {
    assert ItemKey(NewItem(newId)) == newId;
    es + [NewItem(newId)]
  }

  /** `handleRemoveItem`: keep the rows whose id differs, in order. */
  function RemoveItem(es: seq<ExpenseItem>, id: Id): (r: seq<ExpenseItem>)
    ensures forall i :: 0 <= i < |r| ==> r[i] in es && r[i].id != id
    ensures forall i :: 0 <= i < |es| && es[i].id != id ==> es[i] in r
  {
    Keyed.RemoveKey(es, ItemKey, id)
  }

  /** Adding a row and removing it again restores the list. */
  lemma AddThenRemoveItem(es: seq<ExpenseItem>, newId: Id)
    requires Keyed.Fresh(es, ItemKey, newId)
    ensures RemoveItem(AddItem(es, newId), newId) == es
  {
    Keyed.AddThenRemove(es, NewItem(newId), ItemKey);
  }

  /** `{ ...item, [field]: value }`: the named field takes the value, every
      other field, the id included, stays. */
  function ApplyEdit(item: ExpenseItem, edit: ExpenseRow.FieldEdit): (r: ExpenseItem)
    ensures r.id == item.id
    ensures r.date == if edit.SetDate? then edit.date else item.date
    ensures r.description == if edit.SetDescription? then edit.description else item.description
    ensures r.amount == if edit.SetAmount? then edit.amount else item.amount
    ensures r.kind == if edit.SetKind? then edit.kind else item.kind
    ensures r.attachment == if edit.SetAttachment? then edit.attachment else item.attachment
  {
    match edit
    case SetDate(d) => item.(date := d)
    case SetDescription(d) => item.(description := d)
    case SetAmount(a) => item.(amount := a)
    case SetKind(k) => item.(kind := k)
    case SetAttachment(a) => item.(attachment := a)
  }

  /** `handleItemChange`: the rows carrying the change's id take the edit;
      length, order, ids and every other row are untouched. */
  function UpdateItem(es: seq<ExpenseItem>, c: ExpenseRow.ItemChange): (r: seq<ExpenseItem>)
    ensures |r| == |es|
    ensures forall i :: 0 <= i < |es| ==> r[i].id == es[i].id
    ensures forall i :: 0 <= i < |es| && es[i].id != c.id ==> r[i] == es[i]
    ensures forall i :: 0 <= i < |es| && es[i].id == c.id ==> r[i] == ApplyEdit(es[i], c.edit)
    ensures Keyed.UniqueKeys(es, ItemKey) ==> Keyed.UniqueKeys(r, ItemKey)
  {
    seq(|es|, i requires 0 <= i < |es| => if es[i].id == c.id then ApplyEdit(es[i], c.edit) else es[i])
  }

  /** `handleInitialAmountChange`: the float takes the normalised text. */
  function InitialAmountChange(st: Ledger, text: string): (r: Ledger)
    ensures r.initialAmount <= Normalizer.Cap
    ensures var v := Normalizer.ValueOf(Normalizer.DigitValues(text));
            r.initialAmount == if v > Normalizer.Cap then Normalizer.Cap else v
    ensures r == st.(initialAmount := r.initialAmount)
  {
    Normalizer.NormalizeMeaning(text);
    st.(initialAmount := Normalizer.Normalize(text))
  }

  // ---------------------------------------------------------------------
  // Sessions

  /** One user action on the form. Row actions address the row by position,
      as each rendered row calls back with its own item. */
  datatype Action =
    | AddPayeeClicked(newId: Id)
    | RemovePayeeClicked(index: nat)
    | PayeeNameInput(index: nat, name: string)
    | NumberInput(text: string)
    | FloatDateInput(text: string)
    | FloatAmountInput(text: string)
    | AddItemClicked(newId: Id)
    | OnRow(index: nat, event: ExpenseRow.RowEvent)

  /** Whether the action can happen: a remove button is disabled while its
      list has one entry, an addressed row exists, a generated id is new, and
      the type select only offers its two values. */
  predicate Enabled(st: Ledger, a: Action)
  {
    match a
    case AddPayeeClicked(newId) => Keyed.Fresh(st.payees, PayeeKey, newId)
    case RemovePayeeClicked(i) => i < |st.payees| && |st.payees| != 1
    case PayeeNameInput(i, _) => i < |st.payees|
    case AddItemClicked(newId) => Keyed.Fresh(st.expenses, ItemKey, newId)
    case OnRow(i, ev) =>
      && i < |st.expenses|
      && (ev.FieldInput? && ev.name == ExpenseRow.TypeSelect ==> ev.value == "cost" || ev.value == "refund")
    case _ => true
  }

  /** The state after one action; an action that cannot happen changes nothing. */
  function Step(st: Ledger, a: Action): Ledger
  {
    if !Enabled(st, a) then st
    else match a
      case AddPayeeClicked(newId) => st.(payees := AddPayee(st.payees, newId))
      case RemovePayeeClicked(i) => st.(payees := RemovePayee(st.payees, st.payees[i].id))
      case PayeeNameInput(i, name) => st.(payees := RenamePayee(st.payees, st.payees[i].id, name))
      case NumberInput(text) => st.(pettyCashNumber := text)
      case FloatDateInput(text) => st.(initialAmountDate := text)
      case FloatAmountInput(text) => InitialAmountChange(st, text)
      case AddItemClicked(newId) => st.(expenses := AddItem(st.expenses, newId))
      case OnRow(i, ev) =>
        match ExpenseRow.Handle(st.expenses[i], |st.expenses| == 1, ev)
        case None => st
        case Some(Change(c)) => st.(expenses := UpdateItem(st.expenses, c))
        case Some(Remove(id)) => st.(expenses := RemoveItem(st.expenses, id))
  }

  /** A session: the actions in order. */
  function Run(st: Ledger, actions: seq<Action>): Ledger
    decreases |actions|
  {
    if actions == [] then st else Run(Step(st, actions[0]), actions[1..])
  }

  /** Removing one payee of several keeps the state valid: with unique ids
      the filter drops exactly that payee and keeps the rest unique. */
  lemma RemovePayeeKeepsValid(st: Ledger, i: nat)
    requires Valid(st) && i < |st.payees| && |st.payees| != 1
    ensures Valid(st.(payees := RemovePayee(st.payees, st.payees[i].id)))
  {
    Keyed.RemoveKeepsUnique(st.payees, PayeeKey, st.payees[i].id);
    Keyed.RemoveDropsAtMostOne(st.payees, PayeeKey, st.payees[i].id);
  }

  /** Removing one row of several keeps the state valid. */
  lemma RemoveItemKeepsValid(st: Ledger, id: Id)
    requires Valid(st) && |st.expenses| != 1
    ensures Valid(st.(expenses := RemoveItem(st.expenses, id)))
  {
    Keyed.RemoveKeepsUnique(st.expenses, ItemKey, id);
    Keyed.RemoveDropsAtMostOne(st.expenses, ItemKey, id);
    var r := RemoveItem(st.expenses, id);
    forall k | 0 <= k < |r|
      ensures r[k].amount <= Normalizer.Cap
    {
      var j :| 0 <= j < |st.expenses| && st.expenses[j] == r[k];
    }
  }

  /** One action keeps the state valid. */
  lemma StepKeepsValid(st: Ledger, a: Action)
    requires Valid(st)
    ensures Valid(Step(st, a))
  {
    if Enabled(st, a) {
      match a
      case RemovePayeeClicked(i) =>
        RemovePayeeKeepsValid(st, i);
      case OnRow(i, ev) =>
        if ev.RemoveClicked? && |st.expenses| != 1 {
          RemoveItemKeepsValid(st, st.expenses[i].id);
        }
      case _ =>
    }
  }

  lemma {:induction false} RunKeepsValid(st: Ledger, actions: seq<Action>)
    requires Valid(st)
    ensures Valid(Run(st, actions))
    decreases |actions|
  {
    if actions != [] {
      StepKeepsValid(st, actions[0]);
      RunKeepsValid(Step(st, actions[0]), actions[1..]);
    }
  }

  /** However a session goes, the form never loses its last payee or its last
      expense row, ids stay unique and every amount stays within the cap. */
  lemma NeverEmpty(payeeId: Id, itemId: Id, today: string, actions: seq<Action>)
    ensures var st := Run(Init(payeeId, itemId, today), actions);
            Valid(st) && |st.payees| >= 1 && |st.expenses| >= 1
  {
    RunKeepsValid(Init(payeeId, itemId, today), actions);
  }

  /** The float field and a row's amount field turn the same text into the
      same number. */
  lemma RowAndFloatNormaliseAlike(st: Ledger, i: nat, text: string)
    requires i < |st.expenses|
    ensures i < |Step(st, OnRow(i, ExpenseRow.AmountInput(text))).expenses|
    ensures Step(st, FloatAmountInput(text)).initialAmount
         == Step(st, OnRow(i, ExpenseRow.AmountInput(text))).expenses[i].amount
  {
  }

  /** Payee actions leave the rows and the totals alone; row actions leave
      the payees alone. */
  lemma ActionsStayInTheirList(st: Ledger, a: Action)
    ensures (a.AddPayeeClicked? || a.RemovePayeeClicked? || a.PayeeNameInput?) ==>
              Step(st, a).expenses == st.expenses && Step(st, a).initialAmount == st.initialAmount
    ensures (a.AddItemClicked? || a.OnRow?) ==> Step(st, a).payees == st.payees
    ensures (a.AddPayeeClicked? || a.RemovePayeeClicked? || a.PayeeNameInput?) ==>
              Totals.Remaining(Step(st, a).initialAmount, Step(st, a).expenses)
              == Totals.Remaining(st.initialAmount, st.expenses)
  {
  }
}
