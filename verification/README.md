# Petty-cash form: a Dafny model of its state logic

The petty-cash form records a float (a fixed sum advanced for small
expenses), the payees paid from it, and a list of expense and refund rows,
and shows the net total and the balance left. Its logic lives in three places:

- the **amount normaliser**, written twice with identical code. One copy sits
  in the float field (`handleInitialAmountChange`) and one in each row
  (`handleAmountChange`). It maps Persian digits U+06F0–U+06F9 to `0`–`9`,
  drops every other non-digit, reads the rest as a decimal number (nothing
  left reads as 0) and caps it at 999 999 999;
- the **id-keyed list handlers** for payees and expense rows: add a blank
  record with a new id at the end, remove by id with a filter, and change one
  field of the records with a given id;
- the **totals**: costs add, refunds subtract, and the balance is the float
  minus that net total. On submit the rows are projected so that each file
  becomes its name, and the payee names are joined with `", "`.

The model is functional. Every record is an immutable datatype, and every
handler is a pure function from the old state to the new one. `Step`
dispatches one user action, and `Run` replays a whole session.

| module | file | models |
|---|---|---|
| `Types` | types.dfy | types.ts: `Payee`, `ExpenseType`, `ExpenseItem`, the optional attachment |
| `Normalizer` | normalizer.dfy | the amount normaliser, its digit-by-digit meaning, and the round trip with the displayed amount |
| `Keyed` | keyed.dfy | append-with-new-id and remove-by-id on lists keyed by id |
| `ExpenseRow` | expense_row.dfy | components/ExpenseRow.tsx: the row handlers, each producing the `onItemChange` call it makes |
| `Totals` | totals.dfy | net total, balance, and the colour rules of both |
| `PettyCashForm` | petty_cash_form.dfy | components/PettyCashForm.tsx: the state, its handlers, and the session invariant |
| `Submission` | submission.dfy | `handleSubmit`: the joined payee names and the projected rows |

Modelling choices:

- The ids `crypto.randomUUID` would return are parameters. An add action is
  enabled only when its id is not already in the list.
- A click on a disabled remove button changes nothing. The form disables a
  payee's remove button while there is one payee, and a row's remove button
  while there is one row (`isOnlyItem`).
- The item field `type` is called `kind`, because `type` is a Dafny keyword.
- Amounts are unbounded naturals. JavaScript's `Number` loses precision only
  on digit strings with more than about 16 significant digits (leading zeros
  do not count), and turns strings with more than about 309 significant
  digits into `Infinity`. All of those exceed the cap, so parsing exactly
  and then capping gives the same result.
- The normaliser is defined once, as `Normalizer.Normalize`. The two source
  copies are identical, and `PettyCashForm.RowAndFloatNormaliseAlike` states
  that the float field and a row field store the same number for the same text.
- The displayed amount (`toLocaleString('fa-IR')`) is abstract. It is the
  decimal digits in Western or Persian glyphs, grouped in threes with some
  non-digit separator. A zero amount is shown as an empty field.
- The handlers themselves do not enforce the one-row floor: `handleRemovePayee`
  and `handleRemoveItem` are plain filters (`PettyCashForm.RawRemoveCanEmpty`).
  Only the disabled buttons keep one entry in each list, and
  `PettyCashForm.NeverEmpty` proves that this is enough in every session.
- The normaliser's own comment announces a conversion of "Persian/Arabic
  numerals" (components/ExpenseRow.tsx:25, components/PettyCashForm.tsx:36),
  but its table holds only the Persian digits U+06F0–U+06F9. Arabic-Indic
  digits U+0660–U+0669 are therefore stripped like any other non-digit, and
  the model does what the table does (`Normalizer.ArabicIndicDigitsAreDropped`).

## Model

| member | source | states |
|---|---|---|
| `Types.AttachmentName` | types.ts:14 | `attachment?.name` is the file's name when a file is attached, and absent both when the field is missing and when it is null |
| `Normalizer.Normalize` | components/PettyCashForm.tsx:36-50 | the normalised amount always lies in [0, 999999999] |
| `Normalizer.Transliterate` | components/PettyCashForm.tsx:37-41 | the first step keeps the length and replaces each Persian digit by the Western digit of the same value, leaving every other character alone |
| `Normalizer.StripNonDigits` | components/PettyCashForm.tsx:44 | the second step keeps every Western digit of the text and nothing else |
| `Normalizer.StripConcat` | components/PettyCashForm.tsx:44 | stripping distributes over concatenation, so the kept digits stay in input order |
| `Normalizer.NormalizeMeaning` | components/ExpenseRow.tsx:26-38 | for every input, the result is the number spelled by its Western and Persian digits in order, ignoring everything else, and capped at 999999999 (no digits give 0) |
| `Normalizer.NoDigitsIsZero` | components/ExpenseRow.tsx:30-34 | text with no Western or Persian digit normalises to 0 |
| `Normalizer.ArabicIndicDigitsAreDropped` | components/ExpenseRow.tsx:26-33 | Arabic-Indic digits are not in the table, so "١٢٣" normalises to 0 |
| `Normalizer.OverCapClamps` | components/ExpenseRow.tsx:36-38 | whenever the digits spell more than 999999999, the result is exactly 999999999 |
| `Normalizer.TenNinesClamp` | components/ExpenseRow.tsx:33-38 | "9999999999" normalises to 999999999 |
| `Normalizer.PersianWithNoise` | components/PettyCashForm.tsx:41-45 | "۱۲,۳۴۵ ریال" normalises to 12345 |
| `Normalizer.EmptyIsZero` | components/PettyCashForm.tsx:45 | the empty text normalises to 0 |
| `Normalizer.DisplayRoundTrip` | components/ExpenseRow.tsx:118-119 | an amount in [0, 999999999] shown in the field reads back as the same amount, in Western or Persian digits with any non-digit group separator, and with zero shown as an empty field |
| `Keyed.RemoveKey` | components/PettyCashForm.tsx:24 | removal keeps exactly the records whose id differs: everything kept was in the list and has another id, and every record with another id is kept |
| `Keyed.RemoveConcat` | components/PettyCashForm.tsx:59 | removal distributes over concatenation, so it never reorders the records it keeps |
| `Keyed.RemoveAbsent` | components/PettyCashForm.tsx:59 | removing an id no record carries leaves the list unchanged |
| `Keyed.AddThenRemove` | components/PettyCashForm.tsx:20-24 | appending a record with a new id and then removing that id restores the list |
| `Keyed.AppendFresh` | components/PettyCashForm.tsx:55 | appending a record with a new id keeps ids unique |
| `Keyed.RemoveKeepsUnique` | components/PettyCashForm.tsx:59 | removal keeps ids unique |
| `Keyed.RemoveDropsAtMostOne` | components/PettyCashForm.tsx:24 | with unique ids, removal drops exactly one record when the id is present and none when it is absent |
| `ExpenseRow.KindOfName` | components/ExpenseRow.tsx:99-107 | each option value of the type select names the kind whose option value it is |
| `ExpenseRow.FieldChange` | components/ExpenseRow.tsx:15-20 | date and description edits forward the raw text under their field's name, and the select forwards the kind its value names, all for the row's own id |
| `ExpenseRow.AmountChange` | components/ExpenseRow.tsx:22-40 | the amount field sends the row's id with an amount-only edit whose value is the number its Western and Persian digits spell, capped at 999999999 |
| `ExpenseRow.FileChange` | components/ExpenseRow.tsx:46-49 | a file choice sets the attachment to the first chosen file, or to null when nothing was chosen |
| `ExpenseRow.RemoveAttachment` | components/ExpenseRow.tsx:51-56 | removing the attachment sends a null-attachment edit for the row's id and empties the file input |
| `ExpenseRow.ReselectAfterRemove` | components/ExpenseRow.tsx:51-56 | an illustration of the file input's host rule, which the model states itself: after removing an attachment, choosing the same file again reaches the file handler and re-attaches it |
| `ExpenseRow.SameSelectionIsSilent` | components/ExpenseRow.tsx:53-55 | an illustration of the same host rule: an input still holding a file reports nothing when that file is chosen again, which is why the input is emptied |
| `ExpenseRow.Handle` | components/ExpenseRow.tsx:162-165 | a row ignores exactly the remove clicks made while it is the only row and removes itself on every other remove click; each input event reports that input's handler result under the row's id, and only a remove click removes |
| `Totals.TotalIsCostsMinusRefunds` | components/PettyCashForm.tsx:68-73 | the net total equals the sum of the cost amounts minus the sum of the refund amounts |
| `Totals.TotalConcat` | components/PettyCashForm.tsx:69-72 | the total of two lists of rows placed end to end is the sum of their totals |
| `Totals.TotalPermutation` | components/PettyCashForm.tsx:68-73 | the net total does not depend on the order of the rows |
| `Totals.CostAndRefundExample` | components/PettyCashForm.tsx:68-77 | a 1000 cost and a 400 refund total 600, leaving a balance of 4400 of a 5000 float |
| `Totals.NetRefundIff` | components/PettyCashForm.tsx:273 | the total is shown in the refund colour exactly when refunds exceed costs |
| `Totals.OverspentIff` | components/PettyCashForm.tsx:281-285 | the balance is shown as a warning exactly when costs exceed the float plus refunds |
| `PettyCashForm.Init` | components/PettyCashForm.tsx:8-16 | the form starts with one payee with an empty name and one blank cost row, an empty petty-cash number, float 0 and today's date, and the state is valid |
| `PettyCashForm.AddPayee` | components/PettyCashForm.tsx:19-21 | adding a payee appends one blank payee with the new id; earlier payees are unchanged and in order; ids stay unique |
| `PettyCashForm.RemovePayee` | components/PettyCashForm.tsx:23-25 | removing a payee keeps exactly the payees with another id, with no floor on the list length |
| `PettyCashForm.RenamePayee` | components/PettyCashForm.tsx:27-31 | renaming changes only the name of the payees with that id; length, order, ids and other payees are unchanged |
| `PettyCashForm.RenameLastWins` | components/PettyCashForm.tsx:27-31 | of two renames of the same payee, the second determines the result |
| `PettyCashForm.AddThenRemovePayee` | components/PettyCashForm.tsx:19-25 | adding a payee and removing it by its id restores the payee list |
| `PettyCashForm.RawRemoveCanEmpty` | components/PettyCashForm.tsx:23-25 | the remove handler alone empties a one-payee list; the floor is not in the handler |
| `PettyCashForm.AddItem` | components/PettyCashForm.tsx:54-56 | adding a row appends one blank row with the new id; earlier rows are unchanged and in order; ids stay unique |
| `PettyCashForm.RemoveItem` | components/PettyCashForm.tsx:58-60 | removing a row keeps exactly the rows with another id, with no floor on the list length |
| `PettyCashForm.AddThenRemoveItem` | components/PettyCashForm.tsx:54-60 | adding a row and removing it by its id restores the row list |
| `PettyCashForm.ApplyEdit` | components/PettyCashForm.tsx:64 | an edit changes only the field it names; the id and every other field stay |
| `PettyCashForm.UpdateItem` | components/PettyCashForm.tsx:62-66 | a row change edits exactly the rows with that id; length, order, every id and every other row are unchanged |
| `PettyCashForm.InitialAmountChange` | components/PettyCashForm.tsx:33-51 | the float field sets only the float, to the number its Western and Persian digits spell, capped at 999999999 |
| `PettyCashForm.RemovePayeeKeepsValid` | components/PettyCashForm.tsx:23-25 | removing one payee of several, by its id, keeps the state valid |
| `PettyCashForm.RemoveItemKeepsValid` | components/PettyCashForm.tsx:58-60 | removing a row while there are several keeps the state valid |
| `PettyCashForm.StepKeepsValid` | components/PettyCashForm.tsx:160-163 | any one user action keeps both lists non-empty, ids unique and every amount within the cap |
| `PettyCashForm.RunKeepsValid` | components/PettyCashForm.tsx:19-66 | a whole session of actions keeps the state valid |
| `PettyCashForm.NeverEmpty` | components/PettyCashForm.tsx:242-250 | from the initial state, no session of actions leaves the form without a payee or without a row |
| `PettyCashForm.RowAndFloatNormaliseAlike` | components/ExpenseRow.tsx:22-40 | the float field and any row's amount field store the same number for the same typed text |
| `PettyCashForm.ActionsStayInTheirList` | components/PettyCashForm.tsx:19-31 | payee actions leave the rows, the float and the balance unchanged; row actions leave the payees unchanged |
| `Submission.ProjectAll` | components/PettyCashForm.tsx:128 | the submitted rows have the state's length and order, and each agrees with its row in every field except the attachment, which becomes the file's name or nothing |
| `Submission.JoinSplit` | components/PettyCashForm.tsx:127 | joining splits at any inner position into the two halves' joins with one separator between them |
| `Submission.JoinLength` | components/PettyCashForm.tsx:127 | the joined text is as long as the names plus one separator per gap |
| `Submission.Submit` | components/PettyCashForm.tsx:125-139 | the payload carries the state's number, payees, date and float unchanged, the projected rows, the joined names, and a balance equal to the float minus the total |
| `Submission.ProjectedTotal` | components/PettyCashForm.tsx:128 | the total recomputed from the projected rows equals the total of the state's rows |
| `Submission.PayloadTotalsAgree` | components/PettyCashForm.tsx:130-138 | the submitted total agrees with the submitted rows |
| `Submission.SubmittedPayeeNames` | components/PettyCashForm.tsx:127 | the "paid to" text is a lone payee's name, or the payee names in list order with ", " wherever the list is split, and two characters longer than the names per gap |

## Left out

- PDF export (`handleDownload`) is left out. It captures the page with html2canvas, lays out floating-point millimetre pages with jsPDF, and runs asynchronously. The `isDownloading` flag goes with it.
- `window.print`, `alert` and `console.log` are host I/O. The model keeps the values handed to them (`Submission.Payload`) but not the message text.
- Locale formatting is left out because it depends on ICU locale data. This covers `toLocaleString('fa-IR')` of amounts and `toLocaleDateString` of the date. The displayed amount is modelled only as digits plus separators.
- `crypto.randomUUID` is replaced by caller-supplied ids, and the current date (`new Date()`) by a parameter.
- Only a `File`'s name is modelled, not its binary content.
- The opening of the file chooser (`handleAttachmentClick`) is a host action and is left out.
- The selection a row's file input holds (`ExpenseRow.Picker`) is not carried through a session by `PettyCashForm.Step`; the browser rule that an unchanged selection fires no change event is stated on its own, and the two lemmas about it only illustrate why the removal handler empties the input.
- The browser's `required` validation on submit is left out. Because an amount of 0 is shown as an empty field, that validation would also block a submission whose float or any row amount is 0.
- React hooks, JSX, Tailwind markup, placeholders, the row numbering and the print-only markup are presentation and are left out.
- The amount branch of `handleFieldChange` (`Number(value.replace(/,/g, '')) || 0`) is dead code, because the amount input calls `handleAmountChange`. It would also need JavaScript's full numeric-string parsing, so `ExpenseRow.FieldName` has no amount input.
- App.tsx, components/Header.tsx and components/Footer.tsx are presentation with no logic.
- `ExpenseRow.FieldChange`: requires the type select's value to be `"cost"` or `"refund"`, the only options it renders. It does not model an arbitrary string stored as the type.
- `PettyCashForm.StepKeepsValid`: an add action whose id is already in the list is treated as impossible and changes nothing. It stands for the assumption that generated ids are new.
- `Normalizer.DisplayRoundTrip`: it is stated for the abstract rendering (one digit script and one separator character), not for the exact ICU output.
