/** The demo application (app.ts): users shown in the table, an external search box and
    an "active only" switch, the apply-button pattern that keeps pending filter values
    apart from the applied ones handed to the table, and the selection read-outs. */
module Demo {
  import opened Options
  import opened Values

  datatype Status = Active | Inactive

  /** `User` (dummy-data.ts). A creation date is a time in milliseconds. */
  datatype User = User(id: int, name: string, email: string, role: string, status: Status,
                       createdAt: int, salary: int)

  /** A user as a row of the table. */
  function UserRow(u: User): Row {
    map["id" := Num(u.id), "name" := Str(u.name), "email" := Str(u.email), "role" := Str(u.role),
        "status" := Str(if u.status == Active then "active" else "inactive"),
        "createdAt" := Date(u.createdAt), "salary" := Num(u.salary)]
  }

  /** `user.status === 'active'`, on a row. */
  predicate IsActiveRow(row: Row) {
    Lookup(row, "status") == Str("active")
  }

  /** `externalFilter` and `appliedExternalFilter` (lines 22-27, 84-89): a filter exactly
      when the flag is set. */
  function ActiveFilter(showActiveOnly: bool): (f: Option<Row -> bool>)
    ensures f.Some? <==> showActiveOnly
  {
    if showActiveOnly then Some(IsActiveRow) else None
  }

  /** The filter, when there is one, accepts exactly the active users. */
  lemma ActiveFilterAccepts(showActiveOnly: bool, u: User)
    requires showActiveOnly
    ensures ActiveFilter(showActiveOnly).value(UserRow(u)) <==> u.status == Active
  {
  }

  /** `getUserIdentifier` (line 134): a user row is identified by its id. */
  function UserIdentifier(row: Row): (v: Value)
    ensures "id" in row ==> v == row["id"]
  {
    Lookup(row, "id")
  }

  /** Two users with different ids have different identities in the table. */
  lemma UserIdentifierDistinguishes(u: User, w: User)
    ensures UserIdentifier(UserRow(u)) == Num(u.id)
    ensures u.id != w.id ==> UserIdentifier(UserRow(u)) != UserIdentifier(UserRow(w))
  {
  }

  // ---------------------------------------------------------------- pending and applied

  /** The four signals of the apply-button pattern (lines 76-81). */
  datatype Filters = Filters(pendingSearchQuery: string, pendingShowActiveOnly: bool,
                             appliedSearchQuery: string, appliedShowActiveOnly: bool)

  /** `hasPendingChanges()` (lines 111-116): there are pending changes exactly when the
      table would receive something new on applying. */
  predicate HasPendingChanges(f: Filters): (r: bool)
    ensures !r <==> f.(appliedSearchQuery := f.pendingSearchQuery,
                       appliedShowActiveOnly := f.pendingShowActiveOnly) == f
  {
    f.pendingSearchQuery != f.appliedSearchQuery || f.pendingShowActiveOnly != f.appliedShowActiveOnly
  }

  /** `applyFilters()` (lines 99-102): the pending values become the applied ones. */
  function Apply(f: Filters): (r: Filters)
    ensures !HasPendingChanges(r)
    ensures r.pendingSearchQuery == f.pendingSearchQuery && r.pendingShowActiveOnly == f.pendingShowActiveOnly
  {
    f.(appliedSearchQuery := f.pendingSearchQuery, appliedShowActiveOnly := f.pendingShowActiveOnly)
  }

  /** `resetFilters()` (lines 104-109). */
  function Reset(f: Filters): (r: Filters)
    ensures !HasPendingChanges(r)
    ensures ActiveFilter(r.appliedShowActiveOnly).None?
  {
    Filters("", false, "", false)
  }

  /** `onPendingSearchChange(value)` (lines 91-93); `clearPendingSearch()` is the edit to
      the empty string (lines 95-97). */
  function EditPending(f: Filters, value: string): (r: Filters)
    ensures r.appliedSearchQuery == f.appliedSearchQuery && r.appliedShowActiveOnly == f.appliedShowActiveOnly
    ensures r.pendingShowActiveOnly == f.pendingShowActiveOnly
  {
    f.(pendingSearchQuery := value)
  }

  /** Applying is idempotent; with no pending change it changes nothing; and only
      applying (not editing) changes what the table receives. */
  lemma ApplySound(f: Filters)
    ensures Apply(Apply(f)) == Apply(f)
    ensures !HasPendingChanges(f) <==> Apply(f) == f
  {
  }

  /** An edit leaves pending changes exactly when the edited query or the flag differs
      from what is applied; applying then hands the edited query to the table. */
  lemma EditThenApply(f: Filters, value: string)
    ensures HasPendingChanges(EditPending(f, value)) <==>
            value != f.appliedSearchQuery || f.pendingShowActiveOnly != f.appliedShowActiveOnly
    ensures Apply(EditPending(f, value)).appliedSearchQuery == value
  {
  }

  /** Setting the pending flag leaves pending changes exactly when the query or the new
      flag differs from what is applied; applying then hands the flag to the table. */
  lemma FlagThenApply(f: Filters, v: bool)
    ensures HasPendingChanges(f.(pendingShowActiveOnly := v)) <==>
            f.pendingSearchQuery != f.appliedSearchQuery || v != f.appliedShowActiveOnly
    ensures ActiveFilter(Apply(f.(pendingShowActiveOnly := v)).appliedShowActiveOnly).Some? <==> v
  {
  }

  // ---------------------------------------------------------------- selection read-outs

  /** `parts.join(', ')`. */
  function JoinComma(parts: seq<string>): string {
    if parts == [] then "" else if |parts| == 1 then parts[0] else parts[0] + ", " + JoinComma(parts[1..])
  }

  /** The total length of some strings. */
  function TotalLength(parts: seq<string>): nat {
    if parts == [] then 0 else |parts[0]| + TotalLength(parts[1..])
  }

  /** Where the `i`-th part starts in the joined text: after the earlier parts and one
      separator after each of them. */
  function Offset(parts: seq<string>, i: nat): nat
    requires i <= |parts|
  {
    if i == 0 then 0 else |parts[0]| + 2 + Offset(parts[1..], i - 1)
  }

  /** A slice of the second half of a concatenation, read from the whole. */
  lemma AppendSlice(a: string, b: string, x: nat, y: nat)
    requires x <= y <= |b|
    ensures (a + b)[|a| + x..|a| + y] == b[x..y]
  {
    forall k | 0 <= k < y - x
      ensures (a + b)[|a| + x..|a| + y][k] == b[x..y][k]
    {
      assert (a + b)[|a| + x + k] == b[x + k];
    }
  }

  /** The `i`-th part sits at its offset in the joined text. */
  lemma {:induction false} JoinCommaPart(parts: seq<string>, i: nat)
    requires i < |parts|
    ensures Offset(parts, i) + |parts[i]| <= |JoinComma(parts)|
    ensures JoinComma(parts)[Offset(parts, i)..Offset(parts, i) + |parts[i]|] == parts[i]
  {
    if i > 0 {
      JoinCommaPart(parts[1..], i - 1);
      var head := parts[0] + ", ";
      var tail := JoinComma(parts[1..]);
      assert JoinComma(parts) == head + tail;
      var o := Offset(parts[1..], i - 1);
      assert parts[i] == parts[1..][i - 1];
      assert Offset(parts, i) == |head| + o;
      AppendSlice(head, tail, o, o + |parts[i]|);
    }
  }

  /** Each part after the first is preceded by the separator `", "`. */
  lemma {:induction false} JoinCommaSeparator(parts: seq<string>, i: nat)
    requires 0 < i < |parts|
    ensures 2 <= Offset(parts, i) <= |JoinComma(parts)|
    ensures JoinComma(parts)[Offset(parts, i) - 2..Offset(parts, i)] == ", "
  {
    var head := parts[0] + ", ";
    var tail := JoinComma(parts[1..]);
    assert JoinComma(parts) == head + tail;
    if i == 1 {
      assert (head + tail)[|parts[0]|..|head|] == ", ";
    } else {
      JoinCommaSeparator(parts[1..], i - 1);
      var o := Offset(parts[1..], i - 1);
      assert Offset(parts, i) == |head| + o;
      AppendSlice(head, tail, o - 2, o);
    }
  }

  /** The joined text is the parts and one separator between each two of them, and nothing
      else. */
  lemma {:induction false} JoinCommaLength(parts: seq<string>)
    requires parts != []
    ensures |JoinComma(parts)| == TotalLength(parts) + 2 * (|parts| - 1)
  {
    if |parts| > 1 {
      JoinCommaLength(parts[1..]);
    }
  }

  /** The length, the parts at their offsets and the separators between them, together. */
  lemma JoinCommaSound(parts: seq<string>)
    ensures parts == [] ==> JoinComma(parts) == ""
    ensures parts != [] ==> |JoinComma(parts)| == TotalLength(parts) + 2 * (|parts| - 1)
    ensures forall i :: 0 <= i < |parts| ==>
              Offset(parts, i) + |parts[i]| <= |JoinComma(parts)| &&
              JoinComma(parts)[Offset(parts, i)..Offset(parts, i) + |parts[i]|] == parts[i]
    ensures forall i :: 0 < i < |parts| ==>
              2 <= Offset(parts, i) <= |JoinComma(parts)| &&
              JoinComma(parts)[Offset(parts, i) - 2..Offset(parts, i)] == ", "
  {
    if parts != [] {
      JoinCommaLength(parts);
    }
    forall i | 0 <= i < |parts| {
      JoinCommaPart(parts, i);
    }
    forall i | 0 < i < |parts| {
      JoinCommaSeparator(parts, i);
    }
  }

  /** The names of some users, in their order. */
  function Names(users: seq<User>): (names: seq<string>)
    ensures |names| == |users|
    ensures forall i :: 0 <= i < |users| ==> names[i] == users[i].name
  {
    seq(|users|, i requires 0 <= i < |users| => users[i].name)
  }

  /** `selectedUserNames()` (lines 122-124): the names of the selected users, in order,
      separated by `", "`. No selection reads as the empty text. The length, the names at
      their offsets and the separators between them fix every character of the text. */
  function SelectedUserNames(users: seq<User>): (r: string)
    ensures users == [] ==> r == ""
    ensures users != [] ==> |r| == TotalLength(Names(users)) + 2 * (|users| - 1)
    ensures forall i :: 0 <= i < |users| ==>
              Offset(Names(users), i) + |users[i].name| <= |r| &&
              r[Offset(Names(users), i)..Offset(Names(users), i) + |users[i].name|] == users[i].name
    ensures forall i :: 0 < i < |users| ==>
              2 <= Offset(Names(users), i) <= |r| &&
              r[Offset(Names(users), i) - 2..Offset(Names(users), i)] == ", "
  {
    JoinCommaSound(Names(users));
    JoinComma(Names(users))
  }

  /** One selected user reads as its name. */
  lemma OneSelectedUserName(u: User)
    ensures SelectedUserNames([u]) == u.name
  {
    assert Offset(Names([u]), 0) == 0;
  }

  /** `selected[0]`: the first emitted row, or `undefined` for an empty list. */
  function FirstSelected(selected: seq<User>): (r: Option<User>)
    ensures r.None? <==> selected == []
    ensures r.Some? ==> r.value == selected[0]
  {
    if |selected| > 0 then Some(selected[0]) else None
  }

  class App {
    var users: seq<User>
    var externalSearchQuery: string
    var showActiveOnly: bool
    var filters: Filters
    var selectedUsers: seq<User>
    var singleSelectedUser: Option<User>

    /** The demo with its fixed users and every signal at its initial value. */
    constructor(users: seq<User>)
      ensures this.users == users && externalSearchQuery == "" && !showActiveOnly
      ensures filters == Filters("", false, "", false)
      ensures selectedUsers == [] && singleSelectedUser == None
    {
      this.users := users;
      externalSearchQuery := "";
      showActiveOnly := false;
      filters := Filters("", false, "", false);
      selectedUsers := [];
      singleSelectedUser := None;
    }

    /** `externalFilter()` (lines 22-27): a filter exactly when `showActiveOnly` is set,
        and it accepts exactly the active users. */
    function ExternalFilter(): (r: Option<Row -> bool>)
      reads this
      ensures r.Some? <==> showActiveOnly
      ensures r.Some? ==> forall u: User :: r.value(UserRow(u)) <==> u.status == Active
    {
      ActiveFilter(showActiveOnly)
    }

    /** `appliedExternalFilter()` (lines 84-89): the same filter, over the applied flag. */
    function AppliedExternalFilter(): (r: Option<Row -> bool>)
      reads this
      ensures r.Some? <==> filters.appliedShowActiveOnly
      ensures r.Some? ==> forall u: User :: r.value(UserRow(u)) <==> u.status == Active
    {
      ActiveFilter(filters.appliedShowActiveOnly)
    }

    /** `onExternalSearchChange(value)` (lines 67-69). */
    method OnExternalSearchChange(value: string)
      modifies this
      ensures externalSearchQuery == value
      ensures users == old(users) && showActiveOnly == old(showActiveOnly) && filters == old(filters)
      ensures selectedUsers == old(selectedUsers) && singleSelectedUser == old(singleSelectedUser)
    {
      externalSearchQuery := value;
    }

    /** `clearExternalSearch()` (lines 71-73). */
    method ClearExternalSearch()
      modifies this
      ensures externalSearchQuery == ""
      ensures users == old(users) && showActiveOnly == old(showActiveOnly) && filters == old(filters)
      ensures selectedUsers == old(selectedUsers) && singleSelectedUser == old(singleSelectedUser)
    {
      externalSearchQuery := "";
    }

    /** The active-only checkbox of the external controls, bound to `showActiveOnly`
        (line 19): only that flag changes. */
    method SetShowActiveOnly(v: bool)
      modifies this
      ensures showActiveOnly == v && (ExternalFilter().Some? <==> v)
      ensures users == old(users) && externalSearchQuery == old(externalSearchQuery)
      ensures filters == old(filters)
      ensures selectedUsers == old(selectedUsers) && singleSelectedUser == old(singleSelectedUser)
    {
      showActiveOnly := v;
    }

    /** The pending active-only checkbox, bound to `pendingShowActiveOnly` (line 77): only
        the pending flag changes, and the table receives nothing until it is applied. */
    method SetPendingShowActiveOnly(v: bool)
      modifies this
      ensures filters == old(filters).(pendingShowActiveOnly := v)
      ensures AppliedExternalFilter().Some? <==> old(AppliedExternalFilter()).Some?
      ensures users == old(users) && externalSearchQuery == old(externalSearchQuery)
      ensures showActiveOnly == old(showActiveOnly)
      ensures selectedUsers == old(selectedUsers) && singleSelectedUser == old(singleSelectedUser)
    {
      filters := filters.(pendingShowActiveOnly := v);
    }

    /** `onPendingSearchChange(value)` (lines 91-93): only the pending query changes. */
    method OnPendingSearchChange(value: string)
      modifies this
      ensures filters == EditPending(old(filters), value)
      ensures users == old(users) && externalSearchQuery == old(externalSearchQuery)
      ensures showActiveOnly == old(showActiveOnly)
      ensures selectedUsers == old(selectedUsers) && singleSelectedUser == old(singleSelectedUser)
    {
      filters := filters.(pendingSearchQuery := value);
    }

    /** `clearPendingSearch()` (lines 95-97). */
    method ClearPendingSearch()
      modifies this
      ensures filters == EditPending(old(filters), "")
      ensures users == old(users) && externalSearchQuery == old(externalSearchQuery)
      ensures showActiveOnly == old(showActiveOnly)
      ensures selectedUsers == old(selectedUsers) && singleSelectedUser == old(singleSelectedUser)
    {
      filters := filters.(pendingSearchQuery := "");
    }

    /** `applyFilters()` (lines 99-102). */
    method ApplyFilters()
      modifies this
      ensures filters == Apply(old(filters))
      ensures !HasPendingChanges(filters)
      ensures users == old(users) && externalSearchQuery == old(externalSearchQuery)
      ensures showActiveOnly == old(showActiveOnly)
      ensures selectedUsers == old(selectedUsers) && singleSelectedUser == old(singleSelectedUser)
    {
      filters := filters.(appliedSearchQuery := filters.pendingSearchQuery);
      filters := filters.(appliedShowActiveOnly := filters.pendingShowActiveOnly);
    }

    /** `resetFilters()` (lines 104-109). */
    method ResetFilters()
      modifies this
      ensures filters == Reset(old(filters))
      ensures !HasPendingChanges(filters) && AppliedExternalFilter().None?
      ensures users == old(users) && externalSearchQuery == old(externalSearchQuery)
      ensures showActiveOnly == old(showActiveOnly)
      ensures selectedUsers == old(selectedUsers) && singleSelectedUser == old(singleSelectedUser)
    {
      filters := filters.(pendingSearchQuery := "");
      filters := filters.(pendingShowActiveOnly := false);
      filters := filters.(appliedSearchQuery := "");
      filters := filters.(appliedShowActiveOnly := false);
    }

    /** `onSelectionChange(selected)` (lines 126-128). */
    method OnSelectionChange(selected: seq<User>)
      modifies this
      ensures selectedUsers == selected
      ensures users == old(users) && externalSearchQuery == old(externalSearchQuery)
      ensures showActiveOnly == old(showActiveOnly) && filters == old(filters)
      ensures singleSelectedUser == old(singleSelectedUser)
    {
      selectedUsers := selected;
    }

    /** `onSingleSelectionChange(selected)` (lines 130-132). */
    method OnSingleSelectionChange(selected: seq<User>)
      modifies this
      ensures singleSelectedUser == FirstSelected(selected)
      ensures users == old(users) && externalSearchQuery == old(externalSearchQuery)
      ensures showActiveOnly == old(showActiveOnly) && filters == old(filters)
      ensures selectedUsers == old(selectedUsers)
    {
      singleSelectedUser := if |selected| > 0 then Some(selected[0]) else None;
    }
  }
}
