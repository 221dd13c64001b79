# Contact table model

A Dafny model of `TableModel`, the table model of a small address-book
application. The model owns an ordered list of contacts, each a name and an
address, and shows it to a view as a two-column table: column 0 is the name,
column 1 the address. Only the address column can be edited.

The project has two files:

- `contact_list.dfy`. Module `Contacts` holds the value types: `Contact`,
  `ModelIndex` (valid flag, row, column), `Role` (`Display`, `Edit`,
  `Other`), `Orientation`, `ItemFlag` and `Option`. The "no value" result of
  a cell query is `None`. Module `ListOps` holds the list operations the
  table calls: insert, replace and remove at a position, and find the first
  equal element. Each is stated by what it does to every position.
- `table_model.dfy`. Module `Table` holds the class `TableModel`. Its one
  field is `contacts: seq<Contact>`. The read-only members (`RowCount`,
  `ColumnCount`, `Data`, `GetContacts`, `GetContact`) are functions that
  read `this`. `HeaderData` and `Flags` do not look at the list, so they are
  module-level functions. The members that change the list (`AddContact`,
  `UpdateContact`, `RemoveRows`, `SetData`) are methods with
  `modifies this`. Each states the whole new list in terms of the old one.

Assumptions and preconditions:

- Contact equality is field-wise (same name and same address). The header
  that declares `Contact` is not part of this model.
- The source does not check these conditions itself, so the model states
  them as preconditions:
  - `UpdateContact` needs `previous` to be in the list. Otherwise the lookup
    gives -1 and the replacement at -1 is invalid.
  - `SetData` needs the row to be in range, but only when the edit gets past
    its checks, because that is the only path that replaces a row.
  - `RemoveRows` needs `0 <= position` and `position + rows <= |contacts|`
    when `rows > 0`. With `rows <= 0` the loop never runs and nothing
    changes.
  - `GetContact` needs the row to be in range.
- A valid cell gets the base flags `{Selectable, Enabled}` from the base
  class, as the framework documents. The framework code for this is not part
  of this model.

## Model

| member | source | states |
|---|---|---|
| `Table.TableModel.constructor` | tablemodel.cpp:59-62 | the table starts with the given list, in its order |
| `Table.TableModel.Empty` | tablemodel.cpp:54-57 | the default table starts empty |
| `Table.TableModel.RowCount` | tablemodel.cpp:66-69 | the root has one row per contact; a valid parent has no rows |
| `Table.TableModel.ColumnCount` | tablemodel.cpp:71-74 | the root has two columns; a valid parent has none |
| `Table.TableModel.Data` | tablemodel.cpp:78-99 | a value exists exactly for the display role of a valid index inside the RowCount × ColumnCount grid of the root; it is the row's name in column 0 and its address in column 1; an invalid index, an out-of-range row, another column or another role gives none |
| `Table.HeaderData` | tablemodel.cpp:103-119 | a label exists exactly for horizontal display-role sections 0 and 1; they are "Name" and "Address" |
| `Table.Flags` | tablemodel.cpp:178-187 | every index is enabled; an invalid one is only enabled; a valid one has the base flags, plus Editable exactly when its column is 1 |
| `Table.EditableIffEditAccepted` | tablemodel.cpp:157-164 | for a non-empty value, Flags marks a cell editable exactly when SetData accepts an edit-role edit there; no other role is ever accepted |
| `Table.TableModel.GetContacts` | tablemodel.cpp:191-194 | the list has RowCount(root) entries, and entry i is the name and address that Data shows for row i |
| `Table.TableModel.GetContact` | tablemodel.cpp:197-199 | for a row in range, the contact returned has the name and address that Data shows for that row |
| `Table.TableModel.AddContact` | tablemodel.cpp:123-130 | the list grows by one, the new contact is row 0, and the old rows follow in their order |
| `Table.TableModel.UpdateContact` | tablemodel.cpp:133-138 | given that `previous` is present: the first row equal to `previous` becomes `update`; the length and every other row are unchanged |
| `Table.TableModel.RemoveRows` | tablemodel.cpp:141-150 | returns true; the loop's result is `rows` removals at `position`, which leaves exactly `old[..position] + old[position + rows..]`; with `rows <= 0` the list is unchanged |
| `Table.TableModel.SetData` | tablemodel.cpp:154-174 | succeeds exactly for a valid index in column 1 under the edit role with a non-empty value; on failure the list is unchanged; on success only that row's address changes, to the new value, which Data then shows |
| `ListOps.InsertAt` | tablemodel.cpp:127 | the inserted element sits at the position; the elements before it are kept, the ones after it shift up by one |
| `ListOps.ReplaceAt` | tablemodel.cpp:135 | same length; the position holds the new element; every other position is unchanged |
| `ListOps.RemoveAt` | tablemodel.cpp:146 | one shorter; the elements before the position are kept, the ones after it shift down by one |
| `ListOps.IndexOf` | tablemodel.cpp:134 | -1 exactly when the element is absent; otherwise a position that holds it, with no equal element before it |
| `ListOps.RemoveAtTimes` | tablemodel.cpp:145-146 | removing at one position `n` times shortens the list by exactly `n` |
| `ListOps.RemoveAtTimesIsRunRemoval` | tablemodel.cpp:141-150 | removing at the fixed position `p` `n` times leaves exactly `s[..p] + s[p + n..]`, i.e. it takes out the contiguous run of `n` rows starting at `p` |
| `ListOps.RemoveAtExtendsRun` | tablemodel.cpp:145-146 | one more removal at the fixed position makes the removed run one row longer; this is one iteration of the removal loop |
| `ListOps.ReplaceFirstUndone` | tablemodel.cpp:133-135 | if `update` does not appear before the first occurrence of `previous`, the update can be undone: afterwards `update` is found first at the same row, and replacing it by `previous` gives back the original list |
| `ListOps.InsertedFirstIsFoundFirst` | tablemodel.cpp:123-135 | after a contact is added, the lookup of that contact finds row 0 |

## Left out

- The view notifications (`beginInsertRows`/`endInsertRows`,
  `beginRemoveRows`/`endRemoveRows`, `dataChanged`). They belong to the GUI
  framework and do not change the list. The framework's own checks on the
  row range passed to `beginRemoveRows` are not modelled either.
- The parent object and base-class construction in the constructors. This
  is framework ownership.
- Translation of the header labels. The labels are the fixed strings "Name"
  and "Address".
- Value conversion. Cell values are plain strings, roles are the three-value
  `Role`, and flags beyond selectable, enabled and editable are not
  modelled.
- `GetContacts` returns the list as a value. The constant reference of the
  source, and aliasing through it, are not modelled.
- Integer widths (`int` row and column numbers, `qsizetype` sizes) are not
  modelled. Rows and counts are unbounded integers.
