/** The employee directory of the admin dashboard: the employee list held in
    component state, the add, edit and delete handlers that replace it, the
    case-insensitive search and the total and active head counts. */
module EmployeeManagement {
  import opened Wrappers
  import opened Seqs
  import opened Text

  datatype EmployeeStatus = Active | Inactive | Pending

  /** One employee as the directory keeps it. */
  datatype Employee = Employee(
    id: string,
    name: string,
    email: string,
    position: string,
    department: string,
    salary: int,
    walletAddress: string,
    status: EmployeeStatus,
    joinDate: string)

  // ---------------------------------------------------------------------------
  // Search

  /** The search test: the lowercased term occurs, at some index, in the
      lowercased name, email or position; the empty term matches everyone. */
  function Matches(e: Employee, term: string): (m: bool)
    ensures m <==> Occurs(Lower(e.name), Lower(term)) || Occurs(Lower(e.email), Lower(term))
                   || Occurs(Lower(e.position), Lower(term))
    ensures term == "" ==> m
  {
    IncludesAt(Lower(e.name), Lower(term));
    IncludesAt(Lower(e.email), Lower(term));
    IncludesAt(Lower(e.position), Lower(term));
    IncludesEmpty(Lower(e.name));
    Includes(Lower(e.name), Lower(term)) || Includes(Lower(e.email), Lower(term)) || Includes(Lower(e.position), Lower(term))
  }

  /** `filteredEmployees`: the employees that match the term, in list order. */
  function Search(es: seq<Employee>, term: string): (r: seq<Employee>)
    ensures |r| <= |es|
    ensures IsSubsequence(r, es)
    ensures forall e :: multiset(r)[e] == if Matches(e, term) then multiset(es)[e] else 0
  {
    if es == [] then []
    else
      var rest := Search(es[1..], term);
      assert es == [es[0]] + es[1..];
      if Matches(es[0], term) then [es[0]] + rest
      else
        assert rest != [] ==> multiset(rest)[rest[0]] > 0;
        rest
  }

  /** Every result matches, and every matching employee is in the result. */
  lemma SearchMembers(es: seq<Employee>, term: string, e: Employee)
    ensures e in Search(es, term) <==> e in es && Matches(e, term)
  {
    assert e in Search(es, term) <==> multiset(Search(es, term))[e] > 0;
  }

  /** With an empty search term the whole list is shown. */
  lemma {:induction false} SearchEmptyTerm(es: seq<Employee>)
    ensures Search(es, "") == es
    decreases |es|
  {
    if es != [] {
      assert Lower("") == "";
      IncludesEmpty(Lower(es[0].name));
      SearchEmptyTerm(es[1..]);
    }
  }

  /** The case of the term does not matter. */
  lemma {:induction false} SearchCaseInsensitive(es: seq<Employee>, term: string)
    ensures Search(es, Lower(term)) == Search(es, term)
    decreases |es|
  {
    if es != [] {
      LowerIdempotent(term);
      SearchCaseInsensitive(es[1..], term);
    }
  }

  /** Searching the search result again changes nothing. */
  lemma {:induction false} SearchIdempotent(es: seq<Employee>, term: string)
    ensures Search(Search(es, term), term) == Search(es, term)
    decreases |es|
  {
    if es != [] {
      SearchIdempotent(es[1..], term);
    }
  }

  // ---------------------------------------------------------------------------
  // Add

  /** The record `handleAddEmployee` builds from the form: a new employee starts
      pending, and searching for its own name, email or position finds it. */
  function NewEmployee(id: string, name: string, email: string, position: string, department: string,
                       salary: int, walletAddress: string, joinDate: string): (e: Employee)
    ensures e.id == id && e.name == name && e.email == email && e.position == position
    ensures e.department == department && e.salary == salary
    ensures e.walletAddress == walletAddress && e.joinDate == joinDate
    ensures e.status != Active
    ensures Matches(e, name) && Matches(e, email) && Matches(e, position)
  {
    Employee(id, name, email, position, department, salary, walletAddress, Pending, joinDate)
  }

  // ---------------------------------------------------------------------------
  // Edit

  /** The list after an edit: every record carrying the edited record's id is replaced by it. */
  function ReplaceById(es: seq<Employee>, edited: Employee): (r: seq<Employee>)
    ensures |r| == |es|
    ensures forall i :: 0 <= i < |es| && es[i].id == edited.id ==> r[i] == edited
    ensures forall i :: 0 <= i < |es| && es[i].id != edited.id ==> r[i] == es[i]
  {
    if es == [] then []
    else [if es[0].id == edited.id then edited else es[0]] + ReplaceById(es[1..], edited)
  }

  /** Editing with the same record twice is editing once. */
  lemma {:induction false} ReplaceIdempotent(es: seq<Employee>, edited: Employee)
    ensures ReplaceById(ReplaceById(es, edited), edited) == ReplaceById(es, edited)
    decreases |es|
  {
    if es != [] {
      var once := ReplaceById(es, edited);
      assert once[1..] == ReplaceById(es[1..], edited);
      ReplaceIdempotent(es[1..], edited);
    }
  }

  /** Editing a record whose id is not in the list changes nothing. */
  lemma ReplaceUnknownIsNoOp(es: seq<Employee>, edited: Employee)
    requires forall e :: e in es ==> e.id != edited.id
    ensures ReplaceById(es, edited) == es
  {
  }

  // ---------------------------------------------------------------------------
  // Delete

  /** The list after a delete: every record carrying `id` is dropped, the rest keep their order. */
  function RemoveById(es: seq<Employee>, id: string): (r: seq<Employee>)
    ensures |r| <= |es|
    ensures IsSubsequence(r, es)
    ensures forall e :: multiset(r)[e] == if e.id != id then multiset(es)[e] else 0
    ensures forall e :: e in r ==> e.id != id
  {
    if es == [] then []
    else
      var rest := RemoveById(es[1..], id);
      assert es == [es[0]] + es[1..];
      if es[0].id != id then [es[0]] + rest
      else rest
  }

  /** Deleting an id that no record carries changes nothing. */
  lemma {:induction false} RemoveUnknownIsNoOp(es: seq<Employee>, id: string)
    requires forall e :: e in es ==> e.id != id
    ensures RemoveById(es, id) == es
    decreases |es|
  {
    if es != [] {
      RemoveUnknownIsNoOp(es[1..], id);
    }
  }

  /** Deleting again after a delete changes nothing. */
  lemma RemoveIdempotent(es: seq<Employee>, id: string)
    ensures RemoveById(RemoveById(es, id), id) == RemoveById(es, id)
  {
    RemoveUnknownIsNoOp(RemoveById(es, id), id);
  }

  // ---------------------------------------------------------------------------
  // Counts

  /** The employees whose status is active, in list order. */
  function ActiveEmployees(es: seq<Employee>): (r: seq<Employee>)
    ensures |r| <= |es|
    ensures IsSubsequence(r, es)
    ensures forall e :: multiset(r)[e] == if e.status == Active then multiset(es)[e] else 0
  {
    if es == [] then []
    else
      var rest := ActiveEmployees(es[1..]);
      assert es == [es[0]] + es[1..];
      if es[0].status == Active then [es[0]] + rest
      else
        assert rest != [] ==> multiset(rest)[rest[0]] > 0;
        rest
  }

  /** The "Active" figure; never more than the "Total Employees" figure `|es|`. */
  function ActiveCount(es: seq<Employee>): (n: nat)
    ensures n <= |es|
  {
    |ActiveEmployees(es)|
  }

  /** Adding a pending employee does not change the active count. */
  lemma {:induction false} ActiveCountAfterAdd(es: seq<Employee>, e: Employee)
    requires e.status == Pending
    ensures ActiveCount(es + [e]) == ActiveCount(es)
    decreases |es|
  {
    if es != [] {
      assert (es + [e])[1..] == es[1..] + [e];
      ActiveCountAfterAdd(es[1..], e);
    }
  }

  /** Deleting never raises the active count. */
  lemma {:induction false} ActiveCountAfterRemove(es: seq<Employee>, id: string)
    ensures ActiveCount(RemoveById(es, id)) <= ActiveCount(es)
    decreases |es|
  {
    if es != [] {
      ActiveCountAfterRemove(es[1..], id);
    }
  }

  // ---------------------------------------------------------------------------
  // The component state

  /** The state of the employee directory: the list, the search term, the record
      being edited, the id awaiting deletion and the three dialog flags. */
  class EmployeeDirectory {
    var employees: seq<Employee>
    var searchTerm: string
    var editing: Option<Employee>
    var toDelete: Option<string>
    var addDialogOpen: bool
    var editDialogOpen: bool
    var deleteDialogOpen: bool

    constructor (initial: seq<Employee>)
      ensures employees == initial && searchTerm == ""
      ensures editing == None && toDelete == None
      ensures !addDialogOpen && !editDialogOpen && !deleteDialogOpen
    {
      employees := initial;
      searchTerm := "";
      editing := None;
      toDelete := None;
      addDialogOpen := false;
      editDialogOpen := false;
      deleteDialogOpen := false;
    }

    /** The list shown under the search box: some of the employees in list
        order, all of them while the box is empty, whatever the case of the term. */
    function Filtered(): (r: seq<Employee>)
      reads this
      ensures |r| <= |employees| && IsSubsequence(r, employees)
      ensures searchTerm == "" ==> r == employees
      ensures r == Search(employees, Lower(searchTerm))
    {
      SearchEmptyTerm(employees);
      SearchCaseInsensitive(employees, searchTerm);
      Search(employees, searchTerm)
    }

    /** The search box's `onChange`. */
    method ChangeSearchTerm(term: string)
      modifies this
      ensures searchTerm == term
      ensures employees == old(employees) && editing == old(editing) && toDelete == old(toDelete)
      ensures addDialogOpen == old(addDialogOpen) && editDialogOpen == old(editDialogOpen)
      ensures deleteDialogOpen == old(deleteDialogOpen)
      ensures Filtered() == Search(employees, term)
      ensures term == "" ==> Filtered() == employees
    {
      searchTerm := term;
    }

    /** The add dialog's `onOpenChange`. */
    method ChangeAddDialog(open: bool)
      modifies this
      ensures addDialogOpen == open
      ensures employees == old(employees) && searchTerm == old(searchTerm)
      ensures editing == old(editing) && toDelete == old(toDelete)
      ensures editDialogOpen == old(editDialogOpen) && deleteDialogOpen == old(deleteDialogOpen)
    {
      addDialogOpen := open;
    }

    /** `handleAddEmployee`: appends a new pending employee and closes the add dialog. */
    method AddEmployee(id: string, name: string, email: string, position: string, department: string,
                       salary: int, walletAddress: string, joinDate: string)
      modifies this
      ensures employees == old(employees) + [NewEmployee(id, name, email, position, department, salary, walletAddress, joinDate)]
      ensures |employees| == |old(employees)| + 1 && employees[..|old(employees)|] == old(employees)
      ensures var e := employees[|old(employees)|];
        && e.status == Pending && e.id == id && e.joinDate == joinDate
        && e.name == name && e.email == email && e.position == position && e.department == department
        && e.salary == salary && e.walletAddress == walletAddress
      ensures ActiveCount(employees) == ActiveCount(old(employees))
      ensures !addDialogOpen
      ensures searchTerm == old(searchTerm) && editing == old(editing) && toDelete == old(toDelete)
      ensures editDialogOpen == old(editDialogOpen) && deleteDialogOpen == old(deleteDialogOpen)
    {
      var e := NewEmployee(id, name, email, position, department, salary, walletAddress, joinDate);
      ActiveCountAfterAdd(employees, e);
      employees := employees + [e];
      addDialogOpen := false;
    }

    /** `openEditDialog`: a copy of the record becomes the one being edited. */
    method OpenEditDialog(e: Employee)
      modifies this
      ensures editing == Some(e) && editDialogOpen
      ensures employees == old(employees) && searchTerm == old(searchTerm) && toDelete == old(toDelete)
      ensures addDialogOpen == old(addDialogOpen) && deleteDialogOpen == old(deleteDialogOpen)
    {
      editing := Some(e);
      editDialogOpen := true;
    }

    /** The edit dialog's `onOpenChange`: closing it keeps the record being edited. */
    method ChangeEditDialog(open: bool)
      modifies this
      ensures editDialogOpen == open
      ensures employees == old(employees) && searchTerm == old(searchTerm)
      ensures editing == old(editing) && toDelete == old(toDelete)
      ensures addDialogOpen == old(addDialogOpen) && deleteDialogOpen == old(deleteDialogOpen)
    {
      editDialogOpen := open;
    }

    /** A field of the edit form changes: the edited copy is replaced, the list is not.
        The fields are shown only while a record is being edited. */
    method ChangeEditing(updated: Employee)
      requires editing.Some?
      modifies this
      ensures editing == Some(updated)
      ensures employees == old(employees) && searchTerm == old(searchTerm) && toDelete == old(toDelete)
      ensures addDialogOpen == old(addDialogOpen) && editDialogOpen == old(editDialogOpen)
      ensures deleteDialogOpen == old(deleteDialogOpen)
    {
      editing := Some(updated);
    }

    /** `handleEditEmployee`: with a record being edited, writes it over every record with its id
        and closes the dialog; otherwise does nothing. */
    method EditEmployee()
      modifies this
      ensures old(editing).Some? ==>
        && employees == ReplaceById(old(employees), old(editing).value)
        && editing == None && !editDialogOpen
      ensures old(editing).None? ==> employees == old(employees) && editing == None && editDialogOpen == old(editDialogOpen)
      ensures |employees| == |old(employees)|
      ensures searchTerm == old(searchTerm) && toDelete == old(toDelete)
      ensures addDialogOpen == old(addDialogOpen) && deleteDialogOpen == old(deleteDialogOpen)
    {
      if editing.None? {
        return;
      }
      employees := ReplaceById(employees, editing.value);
      editing := None;
      editDialogOpen := false;
    }

    /** `openDeleteDialog`: remembers the id to delete and asks for confirmation. */
    method OpenDeleteDialog(id: string)
      modifies this
      ensures toDelete == Some(id) && deleteDialogOpen
      ensures employees == old(employees) && searchTerm == old(searchTerm) && editing == old(editing)
      ensures addDialogOpen == old(addDialogOpen) && editDialogOpen == old(editDialogOpen)
    {
      toDelete := Some(id);
      deleteDialogOpen := true;
    }

    /** The delete dialog's `onOpenChange` and its Cancel button: the id awaiting
        deletion is kept, and nothing is deleted. */
    method ChangeDeleteDialog(open: bool)
      modifies this
      ensures deleteDialogOpen == open
      ensures employees == old(employees) && searchTerm == old(searchTerm)
      ensures editing == old(editing) && toDelete == old(toDelete)
      ensures addDialogOpen == old(addDialogOpen) && editDialogOpen == old(editDialogOpen)
    {
      deleteDialogOpen := open;
    }

    /** `handleDeleteEmployee`: with a non-empty id pending, drops every record with that id
        and closes the dialog; otherwise does nothing. */
    method DeleteEmployee()
      modifies this
      ensures var go := old(toDelete).Some? && old(toDelete).value != "";
        if go then
          && employees == RemoveById(old(employees), old(toDelete).value)
          && toDelete == None && !deleteDialogOpen
        else
          employees == old(employees) && toDelete == old(toDelete) && deleteDialogOpen == old(deleteDialogOpen)
      ensures ActiveCount(employees) <= ActiveCount(old(employees))
      ensures searchTerm == old(searchTerm) && editing == old(editing)
      ensures addDialogOpen == old(addDialogOpen) && editDialogOpen == old(editDialogOpen)
    {
      if toDelete.None? || toDelete.value == "" {
        return;
      }
      ActiveCountAfterRemove(employees, toDelete.value);
      employees := RemoveById(employees, toDelete.value);
      toDelete := None;
      deleteDialogOpen := false;
    }
  }
}
