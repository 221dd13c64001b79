/** The values the contact table works with, and the list operations of the
    container it keeps them in. */
module Contacts {

  datatype Option<+T> = None | Some(value: T)

  /** One address-book entry. Equality is field-wise: two contacts are equal
      exactly when their names and their addresses are equal. */
  datatype Contact = Contact(name: string, address: string)

  /** A position in the table as the view asks for it. An invalid index
      stands for the root (no cell at all). */
  datatype ModelIndex = ModelIndex(valid: bool, row: int, column: int)

  /** The invalid index, the parent of every top-level row. */
  const Root := ModelIndex(false, -1, -1)

  /** The roles a view asks a cell for: shown text, edited text, anything else. */
  datatype Role = Display | Edit | Other

  datatype Orientation = Horizontal | Vertical

  /** The item flags this table distinguishes. */
  datatype ItemFlag = Selectable | Editable | Enabled
}

/** The operations of the ordered record list used by the table: insertion at
    a position, replacement at a position, removal at a position and lookup of
    the first equal element. */
module ListOps {
  import opened Contacts

  /** The list with `c` inserted before position `i`. */
  function InsertAt(s: seq<Contact>, i: int, c: Contact): (r: seq<Contact>)
    requires 0 <= i <= |s|
    ensures |r| == |s| + 1
    ensures r[i] == c
    ensures forall j :: 0 <= j < i ==> r[j] == s[j]
    ensures forall j :: i < j < |r| ==> r[j] == s[j - 1]
  {
    s[..i] + [c] + s[i..]
  }

  /** The list with the element at position `i` replaced by `c`. */
  function ReplaceAt(s: seq<Contact>, i: int, c: Contact): (r: seq<Contact>)
    requires 0 <= i < |s|
    ensures |r| == |s|
    ensures r[i] == c
    ensures forall j :: 0 <= j < |s| && j != i ==> r[j] == s[j]
  {
    s[..i] + [c] + s[i + 1..]
  }

  /** The list with the element at position `i` taken out; the ones after it
      move one place towards the front. */
  function RemoveAt(s: seq<Contact>, i: int): (r: seq<Contact>)
    requires 0 <= i < |s|
    ensures |r| == |s| - 1
    ensures forall j :: 0 <= j < i ==> r[j] == s[j]
    ensures forall j :: i <= j < |r| ==> r[j] == s[j + 1]
  {
    s[..i] + s[i + 1..]
  }

  /** The position of the first element equal to `c`, or -1 when there is
      none. */
  function IndexOf(s: seq<Contact>, c: Contact): (r: int)
    ensures -1 <= r < |s|
    ensures r == -1 <==> c !in s
    ensures 0 <= r ==> s[r] == c && c !in s[..r]
  {
    if |s| == 0 then -1
    else if s[0] == c then 0
    else
      var k := IndexOf(s[1..], c);
      if k == -1 then -1
      else
        k + 1
  }

  /** The list left by removing the element at position `p`, `n` times in a
      row: the effect of a loop that removes at a fixed position. */
  function RemoveAtTimes(s: seq<Contact>, p: int, n: nat): (r: seq<Contact>)
    requires 0 <= p && p + n <= |s|
    ensures |r| == |s| - n
  {
    if n == 0 then s else RemoveAt(RemoveAtTimes(s, p, n - 1), p)
  }

  /** Removing at a fixed position `n` times takes out exactly the run
      `s[p..p + n]`. */
  lemma {:induction false} RemoveAtTimesIsRunRemoval(s: seq<Contact>, p: int, n: nat)
    requires 0 <= p && p + n <= |s|
    ensures RemoveAtTimes(s, p, n) == s[..p] + s[p + n..]
  {
    if n == 0 {
      assert s[..p] + s[p..] == s;
    } else {
      RemoveAtTimesIsRunRemoval(s, p, n - 1);
      RemoveAtExtendsRun(s, p, n - 1);
    }
  }

  /** One more removal at position `p` from a list that already lacks the
      run `s[p..p + k]` makes that run one element longer. */
  lemma RemoveAtExtendsRun(s: seq<Contact>, p: int, k: int)
    requires 0 <= p && 0 <= k && p + k < |s|
    ensures RemoveAt(s[..p] + s[p + k..], p) == s[..p] + s[p + k + 1..]
  {
    var t := s[..p] + s[p + k..];
    var r := RemoveAt(t, p);
    var w := s[..p] + s[p + k + 1..];
    forall j | 0 <= j < |r|
      ensures r[j] == w[j]
    {
      if j < p {
        assert r[j] == t[j] == s[j];
      } else {
        assert r[j] == t[j + 1] == s[j + k + 1];
      }
    }
  }

  /** The first element equal to `p`, replaced by `u`, is the first element
      equal to `u` afterwards when `u` does not occur before it; replacing
      that one by `p` gives back the original list. */
  lemma ReplaceFirstUndone(s: seq<Contact>, p: Contact, u: Contact)
    requires p in s
    requires u !in s[..IndexOf(s, p)]
    ensures IndexOf(ReplaceAt(s, IndexOf(s, p), u), u) == IndexOf(s, p)
    ensures ReplaceAt(ReplaceAt(s, IndexOf(s, p), u), IndexOf(s, p), p) == s
  {
  }

  /** A contact just inserted at the front is the first one equal to
      itself, so an update of it replaces the new top row. */
  lemma InsertedFirstIsFoundFirst(s: seq<Contact>, c: Contact)
    ensures IndexOf(InsertAt(s, 0, c), c) == 0
  {
  }
}
