/** The user records of the management screen and the pure list operations its
    handlers apply to them: replace-by-id (a `map`), delete-by-id and the filtered
    view (both a `filter`), and the one-field updates of a draft (`{...draft, f: v}`). */
module Users {
  import opened Lists
  import opened Text

  /** The five fields the dialog edits. The create draft is one of these. */
  datatype Fields = Fields(name: string, photo: string, email: string, status: string, city: string)

  /** A record of the list: its id, fixed when it is added, and its fields. */
  datatype User = User(id: int, fields: Fields)

  /** Which text field or selector of the dialog an `onChange` comes from. */
  datatype Field = Name | Photo | Email | Status | City

  /** The create draft with all five fields empty, as the screen starts and as every
      commit leaves it. */
  const EmptyFields := Fields("", "", "", "", "")

  /** The value a form control shows for a draft. */
  function Get(d: Fields, f: Field): string {
    match f
    case Name => d.name
    case Photo => d.photo
    case Email => d.email
    case Status => d.status
    case City => d.city
  }

  /** `{...d, f: v}`: the draft with field `f` set to `v` and nothing else changed. */
  function Set(d: Fields, f: Field, v: string): (r: Fields)
    ensures Get(r, f) == v
    ensures forall g :: g != f ==> Get(r, g) == Get(d, g)
  {
    match f
    case Name => d.(name := v)
    case Photo => d.(photo := v)
    case Email => d.(email := v)
    case Status => d.(status := v)
    case City => d.(city := v)
  }

  /** Setting a field to the value it already has changes nothing, and a second
      write to the same field overrides the first. */
  lemma SetLaws(d: Fields, f: Field, v: string, w: string)
    ensures Set(d, f, Get(d, f)) == d
    ensures Set(Set(d, f, v), f, w) == Set(d, f, w)
  {
  }

  predicate HasId(users: seq<User>, id: int) {
    exists i :: 0 <= i < |users| && users[i].id == id
  }

  /** No two records of the list share an id. */
  ghost predicate DistinctIds(users: seq<User>) {
    forall i, j :: 0 <= i < j < |users| ==> users[i].id != users[j].id
  }

  // ----- replace by id: users.map(u => u.id === e.id ? e : u)

  function Replace(users: seq<User>, e: User): (r: seq<User>)
    ensures |r| == |users|
  {
    if users == [] then []
    else [if users[0].id == e.id then e else users[0]] + Replace(users[1..], e)
  }

  /** Every record carrying `e`'s id becomes `e`; every other record stays what it
      was, at the same position. */
  lemma {:induction false} ReplaceAt(users: seq<User>, e: User)
    ensures |Replace(users, e)| == |users|
    ensures forall i :: 0 <= i < |users| ==>
      Replace(users, e)[i] == if users[i].id == e.id then e else users[i]
  {
    if users != [] {
      ReplaceAt(users[1..], e);
      assert forall i :: 1 <= i < |users| ==> Replace(users, e)[i] == Replace(users[1..], e)[i - 1];
    }
  }

  /** Replacing an id no record has is a silent no-op. */
  lemma {:induction false} ReplaceAbsent(users: seq<User>, e: User)
    requires !HasId(users, e.id)
    ensures Replace(users, e) == users
  {
    if users != [] {
      assert !HasId(users[1..], e.id) by {
        forall i | 0 <= i < |users| - 1 ensures users[1..][i].id != e.id {
          assert users[1..][i] == users[i + 1];
        }
      }
      ReplaceAbsent(users[1..], e);
      assert users[0].id != e.id;
      assert [users[0]] + users[1..] == users;
    }
  }

  /** Replace keeps every position's id, so distinct ids stay distinct. */
  lemma ReplaceKeepsIds(users: seq<User>, e: User)
    ensures forall i :: 0 <= i < |users| ==> Replace(users, e)[i].id == users[i].id
    ensures DistinctIds(users) ==> DistinctIds(Replace(users, e))
  {
    ReplaceAt(users, e);
  }

  /** Committing the same edit twice gives what committing it once gave. */
  lemma ReplaceIdempotent(users: seq<User>, e: User)
    ensures Replace(Replace(users, e), e) == Replace(users, e)
  {
    ReplaceAt(users, e);
    ReplaceAt(Replace(users, e), e);
  }

  // ----- add: [...users, {...newUser, id}]

  /** Appending a record whose id is not yet in the list keeps the ids distinct. */
  lemma AppendKeepsDistinct(users: seq<User>, d: Fields, id: int)
    requires DistinctIds(users) && !HasId(users, id)
    ensures DistinctIds(users + [User(id, d)])
  {
  }

  // ----- delete by id: users.filter(u => u.id !== id)

  function WithId(id: int): User -> bool {
    (u: User) => u.id == id
  }

  function WithoutId(id: int): User -> bool {
    (u: User) => u.id != id
  }

  function Remove(users: seq<User>, id: int): seq<User> {
    Filter(users, WithoutId(id))
  }

  /** No record with the id survives; every record with another id does, and the
      survivors keep their relative order. */
  lemma RemoveSpec(users: seq<User>, id: int)
    ensures !HasId(Remove(users, id), id)
    ensures forall u :: u in Remove(users, id) <==> u in users && u.id != id
    ensures IsSubsequence(Remove(users, id), users)
  {
    FilterMembers(users, WithoutId(id));
    FilterIsSubsequence(users, WithoutId(id));
    var r := Remove(users, id);
    forall i | 0 <= i < |r| ensures r[i].id != id {
      assert r[i] in r;
    }
  }

  /** The list shrinks by the number of records that carry the id. */
  lemma {:induction false} RemoveLength(users: seq<User>, id: int)
    ensures |Remove(users, id)| == |users| - Count(users, WithId(id))
  {
    if users != [] {
      RemoveLength(users[1..], id);
    }
  }

  /** Deleting an id no record has leaves the list unchanged. */
  lemma RemoveAbsent(users: seq<User>, id: int)
    requires !HasId(users, id)
    ensures Remove(users, id) == users
  {
    FilterKeepsAll(users, WithoutId(id));
  }

  /** Deleting keeps distinct ids distinct. */
  lemma {:induction false} RemoveKeepsDistinct(users: seq<User>, id: int)
    requires DistinctIds(users)
    ensures DistinctIds(Remove(users, id))
  {
    if users != [] {
      var rest := Remove(users[1..], id);
      RemoveKeepsDistinct(users[1..], id);
      if users[0].id != id {
        forall u | u in rest ensures u.id != users[0].id {
          var k :| 0 <= k < |users[1..]| && users[1..][k] == u;
          assert users[k + 1] == u;
        }
        assert Remove(users, id) == [users[0]] + rest;
      }
    }
  }

  /** With distinct ids a present id is carried by exactly one record, so a delete
      shrinks the list by exactly one. */
  lemma {:induction false} CountDistinct(users: seq<User>, id: int)
    requires DistinctIds(users)
    ensures Count(users, WithId(id)) == if HasId(users, id) then 1 else 0
  {
    if users != [] {
      CountDistinct(users[1..], id);
      if users[0].id == id {
        forall i | 0 <= i < |users| - 1 ensures users[1..][i].id != id {
          assert users[1..][i] == users[i + 1];
        }
      } else {
        if HasId(users, id) {
          var k :| 0 <= k < |users| && users[k].id == id;
          assert users[1..][k - 1].id == id;
        }
        if HasId(users[1..], id) {
          var k :| 0 <= k < |users[1..]| && users[1..][k].id == id;
          assert users[k + 1].id == id;
        }
      }
    }
  }

  // ----- the filtered view (search by name, filter by status)

  /** A record is shown when its lower-cased name includes the lower-cased search
      text and the status filter is empty or equal to its status. */
  predicate Shown(u: User, search: string, statusFilter: string) {
    Contains(LowerString(u.fields.name), LowerString(search)) &&
    (statusFilter == "" || u.fields.status == statusFilter)
  }

  function Matches(search: string, statusFilter: string): User -> bool {
    (u: User) => Shown(u, search, statusFilter)
  }

  function View(users: seq<User>, search: string, statusFilter: string): seq<User> {
    Filter(users, Matches(search, statusFilter))
  }

  /** The view is an order-preserving selection from the list, holds exactly the
      records that are shown, and each as often as the list holds it. */
  lemma ViewSpec(users: seq<User>, search: string, statusFilter: string)
    ensures IsSubsequence(View(users, search, statusFilter), users)
    ensures forall u :: u in View(users, search, statusFilter) <==> u in users && Shown(u, search, statusFilter)
    ensures |View(users, search, statusFilter)| == Count(users, Matches(search, statusFilter))
  {
    FilterIsSubsequence(users, Matches(search, statusFilter));
    FilterMembers(users, Matches(search, statusFilter));
    FilterLength(users, Matches(search, statusFilter));
  }

  /** With an empty search and no status filter every record is shown. */
  lemma ViewUnfiltered(users: seq<User>)
    ensures View(users, "", "") == users
  {
    forall i | 0 <= i < |users| ensures Shown(users[i], "", "") {
      ContainsEmpty(LowerString(users[i].fields.name));
    }
    FilterKeepsAll(users, Matches("", ""));
  }

  /** The search ignores case: two searches that lower-case alike show the same rows. */
  lemma {:induction false} ViewIgnoresCase(users: seq<User>, q1: string, q2: string, statusFilter: string)
    requires LowerString(q1) == LowerString(q2)
    ensures View(users, q1, statusFilter) == View(users, q2, statusFilter)
  {
    if users != [] {
      ViewIgnoresCase(users[1..], q1, q2, statusFilter);
    }
  }

  /** A status filter that no record has shows nothing. */
  lemma {:induction false} ViewUnknownStatus(users: seq<User>, search: string, statusFilter: string)
    requires statusFilter != ""
    requires forall i :: 0 <= i < |users| ==> users[i].fields.status != statusFilter
    ensures View(users, search, statusFilter) == []
  {
    if users != [] {
      ViewUnknownStatus(users[1..], search, statusFilter);
    }
  }
}
