/** The records of the petty-cash ledger (types.ts). */
module Types {

  /** An opaque row identifier; the form draws fresh ones from `crypto.randomUUID`. */
  type Id = string

  datatype Option<T> = None | Some(value: T)

  /** A party paid from the float: exactly an id and a name. */
  datatype Payee = Payee(id: Id, name: string)

  /** The two kinds of line item: money spent, or money returned. */
  datatype ExpenseType = Cost | Refund

  /** A user-selected file; only its display name matters to the form. */
  datatype FileRef = FileRef(name: string)

  /** The optional `attachment?: File | null` field: the property may be missing,
      explicitly `null`, or hold a file. */
  datatype Attachment = Absent | Null | Attached(file: FileRef)

  /** One line of the ledger. `kind` is the source's `type` field (a Dafny keyword). */
  datatype ExpenseItem = ExpenseItem(
    id: Id,
    date: string,
    description: string,
    amount: nat,
    kind: ExpenseType,
    attachment: Attachment)

  function PayeeKey(p: Payee): Id { p.id }

  function ItemKey(e: ExpenseItem): Id { e.id }

  /** The blank payee row created by the form and by "add payee". */
  function NewPayee(id: Id): (p: Payee)
    ensures p.id == id && p.name == ""
  {
    Payee(id, "")
  }

  /** The blank expense row created by the form and by "add item". */
  function NewItem(id: Id): (e: ExpenseItem)
    ensures e.id == id && e.date == "" && e.description == ""
    ensures e.amount == 0 && e.kind == Cost && e.attachment == Null
  {
    ExpenseItem(id, "", "", 0, Cost, Null)
  }

  /** `attachment?.name`: the file's name when there is a file, and nothing
      (JavaScript `undefined`) both when the field is missing and when it is null. */
  function AttachmentName(a: Attachment): (r: Option<string>)
    ensures r.Some? <==> a.Attached?
    ensures a.Attached? ==> r.value == a.file.name
  {
    match a
    case Attached(f) => Some(f.name)
    case _ => None
  }
}
