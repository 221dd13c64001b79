/** The contact table: an ordered list of contacts shown as a two-column
    table (name, address), of which only the address column can be edited. */
module Table {
  import opened Contacts
  import opened ListOps

  /** Whether `value` is accepted as a new cell value by SetData at `index`
      under `role`: a valid index in the address column, the edit role and a
      non-empty value. */
  predicate AcceptsEdit(index: ModelIndex, value: string, role: Role)
  {
    index.valid && role == Edit && index.column == 1 && value != ""
  }

  /** The flags every valid cell gets from the base table model. */
  const BaseFlags: set<ItemFlag> := {Selectable, Enabled}

  /** The column header labels. Sections are counted from 0; only horizontal
      headers of the display role have a label. */
  function HeaderData(section: int, orientation: Orientation, role: Role): (r: Option<string>)
    ensures r.Some? <==> role == Display && orientation == Horizontal && 0 <= section < 2
    ensures r.Some? && section == 0 ==> r.value == "Name"
    ensures r.Some? && section == 1 ==> r.value == "Address"
  {
    if role != Display then None
    else if orientation == Horizontal then
      match section
      case 0 => Some("Name")
      case 1 => Some("Address")
      case _ => None
    else None
  }

  /** The flags of the cell at `index`: an invalid index is only enabled; a
      valid one has the base flags, and the address column is also editable. */
  function Flags(index: ModelIndex): (f: set<ItemFlag>)
    ensures Enabled in f
    ensures Editable in f <==> index.valid && index.column == 1
    ensures !index.valid ==> f == {Enabled}
    ensures index.valid ==> f - {Editable} == BaseFlags
  {
    if !index.valid then {Enabled}
    else
      var flag: set<ItemFlag> := if index.column == 1 then {Editable} else {};
      BaseFlags + flag
  }

  /** A cell reported editable by Flags is exactly one where SetData accepts
      an edit with a non-empty value. */
  lemma EditableIffEditAccepted(index: ModelIndex, value: string)
    requires value != ""
    ensures Editable in Flags(index) <==> AcceptsEdit(index, value, Edit)
    ensures forall role :: role != Edit ==> !AcceptsEdit(index, value, role)
  {
  }

  class TableModel {
    /** The rows of the table, top row first. */
    var contacts: seq<Contact>

    /** An empty table. */
    constructor Empty()
      ensures contacts == []
    {
      contacts := [];
    }

    /** A table showing `initial`, in its order. */
    constructor (initial: seq<Contact>)
      ensures contacts == initial
    {
      contacts := initial;
    }

    /** The number of rows below `parent`: the contacts for the root, none
        under a cell (the table is flat). */
    function RowCount(parent: ModelIndex): (n: int)
      reads this
      ensures 0 <= n
      ensures parent.valid ==> n == 0
      ensures !parent.valid ==> n == |contacts|
    {
      if parent.valid then 0 else |contacts|
    }

    /** The number of columns below `parent`: name and address for the root,
        none under a cell. */
    function ColumnCount(parent: ModelIndex): (n: int)
      reads this
      ensures 0 <= n
      ensures parent.valid ==> n == 0
      ensures !parent.valid ==> n == 2
    {
      if parent.valid then 0 else 2
    }

    /** Whether `index` names a cell of the table's grid. */
    predicate InGrid(index: ModelIndex)
      reads this
    {
      index.valid && 0 <= index.row < RowCount(Root) && 0 <= index.column < ColumnCount(Root)
    }

    /** The text of the cell at `index` for `role`: only the display role of
        a cell in the grid has one, the name in column 0 and the address in
        column 1. */
    function Data(index: ModelIndex, role: Role): (r: Option<string>)
      reads this
      ensures r.Some? <==> role == Display && InGrid(index)
      ensures r.Some? && index.column == 0 ==> r.value == contacts[index.row].name
      ensures r.Some? && index.column == 1 ==> r.value == contacts[index.row].address
    {
      if !index.valid then None
      else if index.row >= |contacts| || index.row < 0 then None
      else if role == Display then
        var contact := contacts[index.row];
        match index.column
        case 0 => Some(contact.name)
        case 1 => Some(contact.address)
        case _ => None
      else None
    }

    /** The whole list of contacts, as the table shows it row by row. */
    function GetContacts(): (r: seq<Contact>)
      reads this
      ensures |r| == RowCount(Root)
      ensures forall i :: 0 <= i < |r| ==>
                Data(ModelIndex(true, i, 0), Display) == Some(r[i].name) &&
                Data(ModelIndex(true, i, 1), Display) == Some(r[i].address)
    {
      contacts
    }

    /** The contact shown in row `row`. */
    function GetContact(row: int): (c: Contact)
      reads this
      requires 0 <= row < |contacts|
      ensures Data(ModelIndex(true, row, 0), Display) == Some(c.name)
      ensures Data(ModelIndex(true, row, 1), Display) == Some(c.address)
    {
      contacts[row]
    }

    /** Inserts `contact` as the new top row; the old rows follow in their
        order. */
    method AddContact(contact: Contact)
      modifies this
      ensures contacts == InsertAt(old(contacts), 0, contact)
      ensures |contacts| == |old(contacts)| + 1
      ensures contacts[0] == contact && contacts[1..] == old(contacts)
    {
      contacts := InsertAt(contacts, 0, contact);
    }

    /** Replaces the first contact equal to `previous` by `update`. */
    method UpdateContact(previous: Contact, update: Contact)
      requires previous in contacts
      modifies this
      ensures var row := IndexOf(old(contacts), previous);
              && 0 <= row < |contacts| == |old(contacts)|
              && old(contacts)[row] == previous
              && previous !in old(contacts)[..row]
              && contacts[row] == update
              && forall j :: 0 <= j < |contacts| && j != row ==> contacts[j] == old(contacts)[j]
    {
      var row := IndexOf(contacts, previous);
      contacts := ReplaceAt(contacts, row, update);
    }

    /** Removes the `rows` rows starting at row `position`, by removing the
        row at `position` `rows` times. Removing no rows (or a negative number)
        changes nothing. */
    method RemoveRows(position: int, rows: int) returns (ok: bool)
      requires rows > 0 ==> 0 <= position && position + rows <= |contacts|
      modifies this
      ensures ok
      ensures rows > 0 ==> contacts == RemoveAtTimes(old(contacts), position, rows)
      ensures rows > 0 ==> contacts == old(contacts)[..position] + old(contacts)[position + rows..]
      ensures rows <= 0 ==> contacts == old(contacts)
    {
      ghost var s := contacts;
      var row := 0;
      while row < rows
        invariant 0 <= row && (row == 0 || row <= rows)
        invariant row == 0 ==> contacts == s
        invariant row > 0 ==> contacts == RemoveAtTimes(s, position, row)
      {
        contacts := RemoveAt(contacts, position);
        row := row + 1;
      }
      if rows > 0 {
        RemoveAtTimesIsRunRemoval(s, position, rows);
      }
      ok := true;
    }

    /** Stores `value` as the address of the row at `index` when the edit is
        accepted (see AcceptsEdit) and reports whether it was. Only that
        row's address changes. */
    method SetData(index: ModelIndex, value: string, role: Role) returns (ok: bool)
      requires AcceptsEdit(index, value, role) ==> 0 <= index.row < |contacts|
      modifies this
      ensures ok == AcceptsEdit(index, value, role)
      ensures !ok ==> contacts == old(contacts)
      ensures ok ==> contacts == ReplaceAt(old(contacts), index.row, old(contacts)[index.row].(address := value))
      ensures ok ==> && |contacts| == |old(contacts)|
                     && contacts[index.row].name == old(contacts)[index.row].name
                     && contacts[index.row].address == value
                     && forall j :: 0 <= j < |contacts| && j != index.row ==> contacts[j] == old(contacts)[j]
      ensures ok ==> Data(index, Display) == Some(value)
    {
      if !index.valid || role != Edit || index.column != 1 {
        return false;
      }
      var newAddress := value;
      if newAddress == "" {
        return false;
      }
      var row := index.row;
      var contact := contacts[row];
      contact := contact.(address := value);
      contacts := ReplaceAt(contacts, row, contact);
      ok := true;
    }
  }
}
