/** The state of the user-management screen and its event handlers. Each handler is
    one atomic transition of this state; rendering is not modelled. */
module App {
  import opened Lists
  import opened Users
  import opened Text

  datatype Option<T> = None | Some(value: T)

  class UserManagement {
    var users: seq<User>
    var search: string
    var statusFilter: string
    var dialogOpen: bool
    /** The create draft. */
    var newUser: Fields
    /** The edit draft; `None` when the dialog is in create mode. */
    var editUser: Option<User>

    /** The screen as it first renders: no records, no filters, dialog closed, an
        empty create draft and no edit draft. */
    constructor ()
      ensures users == [] && search == "" && statusFilter == ""
      ensures !dialogOpen && newUser == EmptyFields && editUser == None
    {
      users, search, statusFilter := [], "", "";
      dialogOpen, newUser, editUser := false, EmptyFields, None;
    }

    /** The draft the dialog's controls show and edit: the edit draft if there is
        one, the create draft otherwise. */
    function ActiveDraft(): Fields
      reads this
    {
      if editUser.Some? then editUser.value.fields else newUser
    }

    /** The rows of the table: the records the two filters let through. */
    function FilteredUsers(): (r: seq<User>)
      reads this
      ensures IsSubsequence(r, users)
      ensures forall u :: u in r <==> u in users && Shown(u, search, statusFilter)
      ensures |r| == Count(users, Matches(search, statusFilter))
    {
      ViewSpec(users, search, statusFilter);
      View(users, search, statusFilter)
    }

    /** Commit the dialog (the Add / Save button). In edit mode every record with the
        edit draft's id is replaced by the draft; in create mode the create draft is
        appended with the id `now` (the clock read of the original is a parameter).
        Either way the edit draft is cleared, the create draft emptied and the dialog
        closed; the filters are kept. */
    method HandleAddUser(now: int)
      modifies this
      ensures old(editUser).Some? ==> users == Replace(old(users), old(editUser).value)
      ensures old(editUser).None? ==> users == old(users) + [User(now, old(newUser))]
      ensures editUser == None && newUser == EmptyFields && !dialogOpen
      ensures search == old(search) && statusFilter == old(statusFilter)
    {
      if editUser.Some? {
        users := Replace(users, editUser.value);
        editUser := None;
      } else {
        users := users + [User(now, newUser)];
      }
      newUser := EmptyFields;
      dialogOpen := false;
    }

    /** The Edit button of a row: the row's record becomes the edit draft and the
        dialog opens. */
    method HandleEdit(user: User)
      modifies this
      ensures editUser == Some(user) && dialogOpen
      ensures users == old(users) && newUser == old(newUser)
      ensures search == old(search) && statusFilter == old(statusFilter)
    {
      editUser := Some(user);
      dialogOpen := true;
    }

    /** The Delete button of a row: every record with the id is dropped. */
    method HandleDelete(id: int)
      modifies this
      ensures users == Remove(old(users), id)
      ensures dialogOpen == old(dialogOpen) && editUser == old(editUser) && newUser == old(newUser)
      ensures search == old(search) && statusFilter == old(statusFilter)
    {
      users := Remove(users, id);
    }

    /** The Add User button: it only opens the dialog. A draft left over from a
        cancelled edit is still there, so the dialog then reopens in edit mode. */
    method OpenDialog()
      modifies this
      ensures dialogOpen
      ensures users == old(users) && editUser == old(editUser) && newUser == old(newUser)
      ensures search == old(search) && statusFilter == old(statusFilter)
    {
      dialogOpen := true;
    }

    /** The dialog's Cancel button and its close request (backdrop click, Escape):
        both only close the dialog; neither draft is discarded. */
    method CloseDialog()
      modifies this
      ensures !dialogOpen
      ensures users == old(users) && editUser == old(editUser) && newUser == old(newUser)
      ensures search == old(search) && statusFilter == old(statusFilter)
    {
      dialogOpen := false;
    }

    /** Typing in the search box. */
    method SetSearch(v: string)
      modifies this
      ensures search == v
      ensures users == old(users) && statusFilter == old(statusFilter) && dialogOpen == old(dialogOpen)
      ensures editUser == old(editUser) && newUser == old(newUser)
    {
      search := v;
    }

    /** Choosing in the status selector of the toolbar. */
    method SetStatusFilter(v: string)
      modifies this
      ensures statusFilter == v
      ensures users == old(users) && search == old(search) && dialogOpen == old(dialogOpen)
      ensures editUser == old(editUser) && newUser == old(newUser)
    {
      statusFilter := v;
    }

    /** A change in one of the dialog's five controls: field `f` of the active draft
        becomes `v`. The edit draft keeps its id, the other draft and the list are
        untouched, so an edit never reaches the list before it is committed. */
    method ChangeField(f: Field, v: string)
      modifies this
      ensures ActiveDraft() == Set(old(ActiveDraft()), f, v)
      ensures old(editUser).Some? ==>
        editUser.Some? && editUser.value.id == old(editUser).value.id && newUser == old(newUser)
      ensures old(editUser).None? ==> editUser == None
      ensures users == old(users) && dialogOpen == old(dialogOpen)
      ensures search == old(search) && statusFilter == old(statusFilter)
    {
      if editUser.Some? {
        var e := editUser.value;
        editUser := Some(e.(fields := Set(e.fields, f, v)));
      } else {
        newUser := Set(newUser, f, v);
      }
    }
  }

  /** Edit a row, cancel, then press Add User: the dialog comes back in edit mode with
      the abandoned draft, and the list has not changed. */
  method CancelledEditReopensInEditMode(app: UserManagement, user: User)
    modifies app
    ensures app.dialogOpen && app.editUser == Some(user)
    ensures app.users == old(app.users)
  {
    app.HandleEdit(user);
    app.CloseDialog();
    app.OpenDialog();
  }

  /** Edit a record's field and commit: the list keeps its length and ids, every
      record with k's id is now record k with only that field changed, and no record
      with another id changed. */
  method EditAndSave(app: UserManagement, k: nat, f: Field, v: string)
    requires k < |app.users|
    modifies app
    ensures |app.users| == |old(app.users)|
    ensures forall i :: 0 <= i < |app.users| && old(app.users)[i].id == old(app.users)[k].id ==>
      app.users[i] == old(app.users)[k].(fields := Set(old(app.users)[k].fields, f, v))
    ensures forall i :: 0 <= i < |app.users| ==> app.users[i].id == old(app.users)[i].id
    ensures forall i :: 0 <= i < |app.users| && app.users[i].id != old(app.users)[k].id ==>
      app.users[i] == old(app.users)[i]
  {
    ghost var before := app.users;
    app.HandleEdit(app.users[k]);
    app.ChangeField(f, v);
    ghost var draft := app.editUser.value;
    app.HandleAddUser(0);
    ReplaceAt(before, draft);
  }

  /** A short session: add Ann, search for "an" with and without a status filter,
      move her to Paris, delete her. */
  method AnnSession()
  {
    var app := new UserManagement();
    app.ChangeField(Name, "Ann");
    app.ChangeField(Status, "Active");
    app.HandleAddUser(1);
    var ann := User(1, Fields("Ann", "", "", "Active", ""));
    assert app.users == [ann];

    app.SetSearch("an");
    assert LowerString("Ann") == "ann" && LowerString("an") == "an";
    assert "an" <= "ann";
    assert app.FilteredUsers() == [ann];
    app.SetStatusFilter("Inactive");
    assert app.FilteredUsers() == [];

    app.HandleEdit(ann);
    app.ChangeField(City, "Paris");
    app.HandleAddUser(2);
    assert app.users == [ann.(fields := ann.fields.(city := "Paris"))];

    app.HandleDelete(1);
    assert app.users == [];
  }
}
