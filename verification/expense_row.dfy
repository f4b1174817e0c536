/** One expense row (components/ExpenseRow.tsx): each input of the row turns a
    browser event into a call `onItemChange(item.id, field, value)`, modelled
    here as the `ItemChange` value that call carries. */
module ExpenseRow {
  import opened Types
  import Normalizer

  /** The field named in an `onItemChange` call together with its new value. */
  datatype FieldEdit =
    | SetDate(date: string)
    | SetDescription(description: string)
    | SetAmount(amount: nat)
    | SetKind(kind: ExpenseType)
    | SetAttachment(attachment: Attachment)

  /** The arguments of one `onItemChange` call. */
  datatype ItemChange = ItemChange(id: Id, edit: FieldEdit)

  /** The inputs wired to `handleFieldChange`, by their `name` attribute. */
  datatype FieldName = DateInput | DescriptionInput | TypeSelect

  /** The option values of the type `<select>`. */
  function KindName(k: ExpenseType): string
  {
    match k
    case Cost => "cost"
    case Refund => "refund"
  }

  /** The kind a `<select>` option value names. */
  function KindOfName(v: string): (k: ExpenseType)
    requires v == "cost" || v == "refund"
    ensures KindName(k) == v
  {
    if v == "refund" then Refund else Cost
  }

  /** `handleFieldChange`: forward the raw input text under the input's name.
      The type `<select>` can only produce one of its two option values. */
  function FieldChange(item: ExpenseItem, name: FieldName, value: string): (c: ItemChange)
    requires name == TypeSelect ==> value == "cost" || value == "refund"
    ensures c.id == item.id
    ensures name == DateInput ==> c.edit == SetDate(value)
    ensures name == DescriptionInput ==> c.edit == SetDescription(value)
    ensures name == TypeSelect ==> c.edit.SetKind? && KindName(c.edit.kind) == value
  {
    match name
    case DateInput => ItemChange(item.id, SetDate(value))
    case DescriptionInput => ItemChange(item.id, SetDescription(value))
    case TypeSelect => ItemChange(item.id, SetKind(KindOfName(value)))
  }

  /** `handleAmountChange`: the typed text, normalised, becomes the row's amount. */
  function AmountChange(item: ExpenseItem, text: string): (c: ItemChange)
    ensures c.id == item.id
    ensures c.edit.SetAmount? && c.edit.amount <= Normalizer.Cap
    ensures var v := Normalizer.ValueOf(Normalizer.DigitValues(text));
            c.edit == SetAmount(if v > Normalizer.Cap then Normalizer.Cap else v)
  {
    Normalizer.NormalizeMeaning(text);
    ItemChange(item.id, SetAmount(Normalizer.Normalize(text)))
  }

  /** `handleFileChange`: the first chosen file, or null when nothing was chosen. */
  function FileChange(item: ExpenseItem, files: seq<FileRef>): (c: ItemChange)
    ensures c.id == item.id
    ensures c.edit.SetAttachment?
    ensures files == [] ==> c.edit.attachment == Null
    ensures files != [] ==> c.edit.attachment == Attached(files[0])
  {
    ItemChange(item.id, SetAttachment(if files == [] then Null else Attached(files[0])))
  }

  /** The row's hidden file input: the selection it currently holds. The host
      reports a change only when a new selection differs from the held one. */
  datatype Picker = Picker(held: seq<FileRef>)

  predicate ChangeFires(p: Picker, files: seq<FileRef>)
  {
    p.held != files
  }

  /** `handleRemoveAttachment`: set the attachment to null and empty the file input. */
  function RemoveAttachment(item: ExpenseItem, p: Picker): (r: (ItemChange, Picker))
    ensures r.0.id == item.id && r.0.edit == SetAttachment(Null)
    ensures r.1.held == []
  {
    (ItemChange(item.id, SetAttachment(Null)), Picker([]))
  }

  /** An illustration of the host rule above, not a property of `Handle`:
      after removing an attachment, choosing the very file that was attached
      before reaches `handleFileChange` again and re-attaches it. */
  lemma ReselectAfterRemove(item: ExpenseItem, f: FileRef)
    requires item.attachment == Attached(f)
    ensures var (_, p) := RemoveAttachment(item, Picker([f]));
            ChangeFires(p, [f]) && FileChange(item, [f]).edit.attachment == item.attachment
  {
  }

  /** An illustration of the host rule above: without emptying the input,
      choosing the same file again would not be reported at all, which is why
      the removal handler resets the input. */
  lemma SameSelectionIsSilent(f: FileRef)
    ensures !ChangeFires(Picker([f]), [f])
  {
  }

  /** The user events a row reacts to. */
  datatype RowEvent =
    | FieldInput(name: FieldName, value: string)
    | AmountInput(text: string)
    | FilesChosen(files: seq<FileRef>)
    | AttachmentRemoved
    | RemoveClicked

  /** A row either asks the form to change a field or to remove the row. */
  datatype RowOutput = Change(change: ItemChange) | Remove(id: Id)

  /** Whether the row's remove button is disabled (`disabled={isOnlyItem}`). */
  function RemoveDisabled(isOnlyItem: bool): bool
  {
    isOnlyItem
  }

  /** The row's reaction to one event; `None` when the browser would not call
      the handler (a click on a disabled remove button). */
  function Handle(item: ExpenseItem, isOnlyItem: bool, ev: RowEvent): (out: Option<RowOutput>)
    requires ev.FieldInput? && ev.name == TypeSelect ==> ev.value == "cost" || ev.value == "refund"
    ensures out.None? <==> ev.RemoveClicked? && isOnlyItem
    ensures out.Some? && out.value.Change? ==> out.value.change.id == item.id
    ensures out.Some? && out.value.Remove? ==> ev.RemoveClicked? && out.value.id == item.id
    ensures ev.RemoveClicked? && !isOnlyItem ==> out == Some(Remove(item.id))
    ensures ev.FieldInput? ==> out == Some(Change(FieldChange(item, ev.name, ev.value)))
    ensures ev.AmountInput? ==> out == Some(Change(AmountChange(item, ev.text)))
    ensures ev.FilesChosen? ==> out == Some(Change(FileChange(item, ev.files)))
    ensures ev.AttachmentRemoved? ==> out == Some(Change(ItemChange(item.id, SetAttachment(Null))))
  {
    match ev
    case FieldInput(name, value) => Some(Change(FieldChange(item, name, value)))
    case AmountInput(text) => Some(Change(AmountChange(item, text)))
    case FilesChosen(files) => Some(Change(FileChange(item, files)))
    case AttachmentRemoved => Some(Change(RemoveAttachment(item, Picker([])).0))
    case RemoveClicked => if RemoveDisabled(isOnlyItem) then None else Some(Remove(item.id))
  }
}
