/**
 * The dashboard's state and its handlers. The four state cells are fields
 * that the handlers overwrite; every remote call is reduced to its outcome,
 * `ok`, and the handler then applies the matching state change.
 */
module Dashboard {
  import opened Records
  import opened Collection

  const FetchFailed := "Failed to fetch users."
  const SaveFailed := "Failed to save user."
  const DeleteFailed := "Failed to delete user."

  /** No message at all, or one of the three fixed ones. */
  ghost predicate KnownError(error: Option<string>) {
    error.None? || error.value == FetchFailed || error.value == SaveFailed || error.value == DeleteFailed
  }

  class UserManagement {
    var users: seq<User>
    var formData: User
    var isEditing: bool
    var error: Option<string>

    /** Every stored user has a numeric id, and the error, if any, is one of
        the fixed messages. */
    ghost predicate Valid()
      reads this
    {
      && NumericIds(users)
      && KnownError(error)
    }

    /** The state before the first fetch completes. */
    constructor ()
      ensures Valid()
      ensures users == [] && formData == EmptyDraft && !isEditing && error == None
    {
      users := [];
      formData := EmptyDraft;
      isEditing := false;
      error := None;
    }

    /** The initial fetch completes: on success the ingested records
        replace the list, on failure only the error is set. */
    method FetchCompleted(ok: bool, data: seq<RawUser>)
      requires Valid()
      modifies this
      ensures Valid()
      ensures ok ==> users == Ingest(data) && error == old(error)
      ensures !ok ==> users == old(users) && error == Some(FetchFailed)
      ensures formData == old(formData) && isEditing == old(isEditing)
    {
      if ok {
        users := Ingest(data);
      } else {
        error := Some(FetchFailed);
      }
    }

    /** An input changes: only that field of the draft is replaced. */
    method HandleChange(field: Field, value: string)
      requires Valid()
      modifies this
      ensures Valid()
      ensures formData == With(old(formData), field, value)
      ensures users == old(users) && isEditing == old(isEditing) && error == old(error)
    {
      formData := With(formData, field, value);
    }

    /** The form is submitted and the save request completes. In editing
        mode a success replaces every entry carrying the draft's id; in
        creating mode it appends the draft under id `|users| + 1`. A success
        resets the draft and leaves editing mode but keeps any old error; a
        failure only sets the error. */
    method HandleSubmit(ok: bool)
      requires Valid()
      modifies this
      ensures Valid()
      ensures ok && old(isEditing) ==> users == Replaced(old(users), old(formData))
      ensures ok && !old(isEditing) ==> users == Appended(old(users), old(formData))
      ensures ok && old(isEditing) && old(formData).id == Blank ==> users == old(users)
      ensures ok ==> formData == EmptyDraft && !isEditing && error == old(error)
      ensures !ok ==> users == old(users) && formData == old(formData) && isEditing == old(isEditing)
      ensures !ok ==> error == Some(SaveFailed)
    {
      if ok {
        if isEditing {
          if formData.id == Blank {
            BlankIdReplacesNothing(users, formData);
          }
          users := Replaced(users, formData);
        } else {
          users := Appended(users, formData);
        }
        formData := EmptyDraft;
        isEditing := false;
      } else {
        error := Some(SaveFailed);
      }
    }

    /** A row's delete request completes: a success removes every entry
        carrying `id`, a failure only sets the error. */
    method HandleDelete(id: Id, ok: bool)
      requires Valid()
      modifies this
      ensures Valid()
      ensures ok ==> users == Without(old(users), id) && error == old(error)
      ensures ok && id == Blank ==> users == old(users)
      ensures !ok ==> users == old(users) && error == Some(DeleteFailed)
      ensures formData == old(formData) && isEditing == old(isEditing)
    {
      if ok {
        WithoutMembers(users, id);
        if id == Blank {
          BlankIdDeletesNothing(users);
        }
        users := Without(users, id);
      } else {
        error := Some(DeleteFailed);
      }
    }

    /** A row's edit button: the draft becomes that user and the form
        switches to editing mode. */
    method HandleEdit(user: User)
      requires Valid()
      modifies this
      ensures Valid()
      ensures formData == user && isEditing
      ensures users == old(users) && error == old(error)
    {
      isEditing := true;
      formData := user;
    }
  }

  /** The directory's records carry distinct ids. */
  ghost predicate DistinctRawIds(data: seq<RawUser>) {
    forall i, j :: 0 <= i < j < |data| ==> data[i].id != data[j].id
  }

  /** Ingested records keep distinct ids distinct. */
  lemma IngestUnique(data: seq<RawUser>)
    requires DistinctRawIds(data)
    ensures UniqueIds(Ingest(data))
  {
    var users := Ingest(data);
    forall i, j | 0 <= i < j < |users| ensures users[i].id != users[j].id {
      assert users[i].id == Num(data[i].id) && users[j].id == Num(data[j].id);
    }
  }

  /** The directory sends a single record; the list then holds it with its
      name split and its department defaulted. */
  method FetchOneScenario() returns (users: seq<User>, error: Option<string>)
    ensures users == [User(Num(1), "Ada", "Lovelace", "a@x.com", UnknownDepartment)]
    ensures error == None
  {
    var d := new UserManagement();
    d.FetchCompleted(true, [RawUser(1, "Ada Lovelace", "a@x.com", None)]);
    IngestExample();
    users, error := d.users, d.error;
  }

  /** Edit the k-th fetched user, change its email and save: the list keeps
      its length and only that user's email changes. */
  method EditEmailScenario(data: seq<RawUser>, k: nat, email: string) returns (before: seq<User>, after: seq<User>)
    requires DistinctRawIds(data) && k < |data|
    ensures |before| == |after| == |data|
    ensures after == before[k := before[k].(email := email)]
  {
    var d := new UserManagement();
    d.FetchCompleted(true, data);
    before := d.users;
    d.HandleEdit(before[k]);
    d.HandleChange(Email, email);
    d.HandleSubmit(true);
    IngestUnique(data);
    ReplacedUnique(before, before[k].(email := email), k);
    after := d.users;
  }

  /** Fetch users numbered 1..n, delete user k < n and create a user: the
      new user is given id n, which the last fetched user still has. */
  method DeleteThenCreateScenario(data: seq<RawUser>, k: int, draft: User) returns (after: seq<User>)
    requires forall i :: 0 <= i < |data| ==> data[i].id == i + 1
    requires 1 <= k < |data|
    ensures |after| == |data|
    ensures after[|data| - 1].id == Num(|data|) && after[|data| - 2].id == Num(|data|)
    ensures !UniqueIds(after)
  {
    var d := new UserManagement();
    d.FetchCompleted(true, data);
    var fetched := d.users;
    d.HandleChange(FirstName, draft.firstName);
    d.HandleChange(LastName, draft.lastName);
    d.HandleChange(Email, draft.email);
    d.HandleChange(Department, draft.department);
    d.HandleDelete(Num(k), true);
    var kept, submitted := d.users, d.formData;
    d.HandleSubmit(true);
    after := d.users;
    assert NumberedFromOne(fetched);
    CreateAfterDeleteDuplicates(fetched, k, submitted);
  }

  /** A failed save leaves the list, the draft and the mode as they were. */
  method FailedSaveScenario(data: seq<RawUser>, user: User) returns (before: seq<User>, after: seq<User>, error: Option<string>)
    ensures after == before && error == Some(SaveFailed)
  {
    var d := new UserManagement();
    d.FetchCompleted(true, data);
    before := d.users;
    d.HandleEdit(user);
    d.HandleSubmit(false);
    after, error := d.users, d.error;
  }
}
