# Matrix form column editor, in Dafny

This project models the column-list editor of the `TestComponent` form
component. The component owns an ordered list of column definitions. Each row
has a selection flag, a header text, a column type (Text / Number / Date), a
"filled by" choice (User / System), a data type (String / Integer / Boolean)
and a display text. The component starts with two default rows. It appends a
default row on "add column". On "delete selected columns" it removes every
selected row, scanning from the last index down to the first.

Everything is in one module, `MatrixForm` (`matrix_form.dfy`):

- The three option lists become datatypes whose constructors carry the
  options' names. The constants `ColumnTypes`, `FilledByOptions` and
  `DataTypes` keep the source's order, so "the first option" is stated as in
  the source.
- A row is the value type `Row`. The reactive form array `columns` becomes the
  field `columns: seq<Row>` of the class `TestComponent`. Its `push` and
  `removeAt` are the methods `Push` (append) and `RemoveAt`
  (`s[..i] + s[i+1..]`).
- `Unselected` is the specification of the delete operation: the unselected
  rows in their original order. `DeleteSelectedColumns` keeps the source's
  descending loop. Its invariant says that indices `0..i` still hold the
  original rows and that the positions after them hold `Unselected` of the
  original suffix beyond `i`. The method is proved to leave exactly
  `Unselected` of the old list.
- `KeptIndices` lists the indices of the surviving rows. It is used to state
  that the delete operation keeps relative order and field values.

## Model

| member | source | states |
|---|---|---|
| `MatrixForm.CreateColumn` | TestComponent.ts:35-43 | a new row is unselected, has an empty header and display, and takes the first entry of each of the three option lists |
| `MatrixForm.TestComponent.constructor` | TestComponent.ts:19-27 | a fresh component holds exactly two rows, both the default row |
| `MatrixForm.TestComponent.Push` | TestComponent.ts:48 | the form array's push appends its row at the end and changes nothing else |
| `MatrixForm.TestComponent.RemoveAt` | TestComponent.ts:55 | the form array's removeAt drops one index; the length falls by one and every earlier index keeps its row |
| `MatrixForm.TestComponent.AddColumn` | TestComponent.ts:47-49 | the length grows by exactly one, the new last row is the default row, and all earlier rows are unchanged |
| `MatrixForm.TestComponent.DeleteSelectedColumns` | TestComponent.ts:52-58 | the descending scan leaves exactly the unselected rows of the old list, in order; no selected row remains; the length falls by the number of selected rows |
| `MatrixForm.TestComponent.OnSubmit` | TestComponent.ts:61-63 | the submitted value is the current list of rows |
| `MatrixForm.SubmitThenAdd` | TestComponent.ts:47-63 | a value submitted before a column is added still holds the rows of that moment, while the list gains the default row |
| `MatrixForm.Unselected` | TestComponent.ts:52-58 | the result of deleting is no longer than the list, contains no selected row, and contains only rows of the list |
| `MatrixForm.UnselectedAppend` | TestComponent.ts:52-58 | deleting from a concatenation equals concatenating the deletions from each part |
| `MatrixForm.UnselectedStep` | TestComponent.ts:53-56 | the filter of the suffix from index i is the filtered row at i followed by the filter of the suffix beyond i, which is the step the descending scan takes |
| `MatrixForm.UnselectedMembership` | TestComponent.ts:52-58 | a row survives the deletion if and only if it was in the list and is not selected |
| `MatrixForm.UnselectedLength` | TestComponent.ts:52-58 | the length after deletion is the old length minus the number of selected rows |
| `MatrixForm.UnselectedNoneSelected` | TestComponent.ts:52-58 | with no row selected, deleting leaves the list unchanged |
| `MatrixForm.UnselectedAllSelected` | TestComponent.ts:52-58 | with every row selected, deleting yields the empty list |
| `MatrixForm.UnselectedIdempotent` | TestComponent.ts:52-58 | deleting a second time leaves the result of the first deletion unchanged |
| `MatrixForm.KeptFromIndexes` | TestComponent.ts:53-56 | the unselected indices from a given index on are increasing, in range, exactly the unselected ones, and pick out the filtered suffix |
| `MatrixForm.UnselectedKeepsOrder` | TestComponent.ts:52-58 | the k-th surviving row is the original row at the k-th unselected index, and these indices increase, so surviving rows keep their relative order and their field values |
| `MatrixForm.DeleteFirstAndLast` | TestComponent.ts:52-58 | of three rows with the first and last selected, only the middle row remains, unchanged |
| `MatrixForm.DeleteTwice` | TestComponent.ts:52-58 | two deletions in a row on a component leave what one deletion leaves |

## Left out

- Angular machinery: the `@Component` decorator and its template and style
  files, injection of `FormBuilder`, `FormControl`/`FormGroup` reactivity, change
  tracking and validators. This is foreign library behaviour. The form array
  is abstracted as a sequence with push, index access and removeAt.
- The `columns` getter (TestComponent.ts:30-32) is the field `columns` itself.
  The enclosing `matrixForm` group holds nothing else, so it is not modelled.
- The optional chaining `?.value` at TestComponent.ts:54 reads a missing
  control as "not selected". In the model every row has a `selected` field, so
  this case cannot arise.
- Values of unexpected types bound through the template (a non-boolean
  `selected`, an option text outside the lists) are not modelled. Each field
  has its declared type.
- `MatrixForm.TestComponent.OnSubmit`: the source writes the form value to the
  console, which is I/O. The model returns that value, the current list of
  rows, instead. The source method returns nothing.
- User edits made through the HTML template are not modelled. The template
  is not part of this model.
- The unused router imports (TestComponent.ts:2).
