# User management screen — a Dafny model

The repository is a single React component (`src/App.jsx`). It shows an in-memory
list of user records that can be searched by name, filtered by status, and
created, edited or deleted through a modal dialog. Beneath the JSX the component
is a small state machine:

- `users`: the ordered list of records;
- `search` and `statusFilter`: the two filter values;
- `dialogOpen`: whether the dialog is shown;
- `newUser`: the create draft (five fields, no id);
- `editUser`: the edit draft, or null.

Every event handler is one transition of that state. This project models that
state machine.

- `lists.dfy` (module `Lists`): the generic list operations the handlers use. It
  has JavaScript's `filter` (`Filter`), a count of kept positions (`Count`), and
  the relation "some elements dropped, the rest kept in order" (`IsSubsequence`),
  with their lemmas.
- `text.dfy` (module `Text`): `toLowerCase`, restricted to the ASCII letters, and
  `includes` as substring containment. `ContainsIff` proves `includes` equal to
  "occurs at some position".
- `users.dfy` (module `Users`): the records (`Fields`, `User`), the field selector
  of the dialog (`Field`), and the pure list operations inside the handlers.
  These are replace-by-id (the `map` of the commit), delete-by-id (a `filter`),
  the filtered view (a `filter`) and the one-field draft update (`{...d, f: v}`).
  Each comes with its lemmas.
- `app.dfy` (module `App`): class `UserManagement`, whose fields are the
  component's state. It has one method per handler. Each method's postcondition
  gives the whole new state in terms of the old state and the functions of
  `Users`. Three client methods run the handlers in sequence: a cancelled edit
  reopening in edit mode, an edit-and-save, and a short add/search/edit/delete
  session.

Two details of the code are kept as written:

- Cancel and close only set `dialogOpen` to false. They clear neither draft, so
  after a cancelled edit the Add User button reopens the dialog in edit mode
  (`CancelledEditReopensInEditMode`).
- Replace uses `map`, so it rewrites every record carrying the draft's id, not
  only the first.

Two more behaviours of the code differ from what a reader might expect of such a
screen. The model follows the code:

- One might expect a delete to shrink the list by exactly one. The code drops
  every record with the id (src/App.jsx:55). `RemoveLength` states the code's
  behaviour. `CountDistinct` shows that the two agree when ids are distinct.
- One might expect ids to be unique at all times. Nothing in the code checks
  this. The model proves only that each operation keeps distinct ids distinct
  (for an add, when the new id is not already present).

## Model

| member | source | states |
|---|---|---|
| Text.Lower | src/App.jsx:60 | A lower-cased character is never an ASCII capital; capitals become the matching small letter; other characters are kept |
| Text.LowerString | src/App.jsx:60 | `toLowerCase` keeps the length and lower-cases each character at its own position |
| Text.LowerStringIdempotent | src/App.jsx:60 | Lower-casing an already lower-cased string changes nothing |
| Text.ContainsIff | src/App.jsx:60 | `includes` holds exactly when the needle occurs at some position of the haystack |
| Text.ContainsEmpty | src/App.jsx:60 | Every name includes the empty search text |
| Users.Set | src/App.jsx:170-218 | A field update sets exactly the chosen field to the new value; the other four fields keep their values |
| Users.SetLaws | src/App.jsx:170-218 | Writing a field's own value back is a no-op; a second write to the same field overrides the first |
| Users.Replace | src/App.jsx:40 | The commit's `map` keeps the list's length |
| Users.ReplaceAt | src/App.jsx:39-40 | Every record whose id equals the edit draft's id becomes the draft; every other record is unchanged at its position |
| Users.ReplaceAbsent | src/App.jsx:40 | Committing an edit whose id no record has leaves the list unchanged (silent no-op) |
| Users.ReplaceKeepsIds | src/App.jsx:40 | Replace keeps the id at every position, so distinct ids stay distinct |
| Users.ReplaceIdempotent | src/App.jsx:40 | Committing the same edit twice gives the same list as committing it once |
| Users.AppendKeepsDistinct | src/App.jsx:43 | Appending the create draft under an id not yet present keeps the ids distinct |
| Users.RemoveSpec | src/App.jsx:54-56 | After a delete no record has the id; a record survives exactly when it was in the list with another id; survivors keep their relative order |
| Users.RemoveLength | src/App.jsx:55 | A delete shrinks the list by the number of records that carry the id |
| Users.RemoveAbsent | src/App.jsx:55 | Deleting an id that no record has leaves the list unchanged |
| Users.RemoveKeepsDistinct | src/App.jsx:55 | A delete keeps distinct ids distinct |
| Users.CountDistinct | src/App.jsx:55 | With distinct ids, exactly one record carries a present id and none carries an absent one |
| Users.ViewSpec | src/App.jsx:58-62 | The view keeps records in list order, holds exactly the records whose lower-cased name includes the lower-cased search and whose status matches a non-empty filter, and holds each as many times as the list does |
| Users.ViewUnfiltered | src/App.jsx:58-62 | With an empty search and an empty status filter the view is the whole list |
| Users.ViewIgnoresCase | src/App.jsx:60 | Two searches that lower-case to the same text give the same view |
| Users.ViewUnknownStatus | src/App.jsx:61 | A non-empty status filter that no record has gives an empty view |
| App.UserManagement.constructor | src/App.jsx:25-36 | The initial state has no records, empty filters, the dialog closed, an empty create draft and no edit draft |
| App.UserManagement.FilteredUsers | src/App.jsx:58-62 | The table rows are an order-preserving selection of `users`, a record appears in them exactly when the current filters show it, and there is one row per list position that is shown |
| App.UserManagement.HandleAddUser | src/App.jsx:38-47 | In edit mode the list becomes Replace of the old list by the draft; in create mode the create draft is appended under the given id. Afterwards the edit draft is null, the create draft is empty, the dialog is closed, and the filters are unchanged |
| App.UserManagement.HandleEdit | src/App.jsx:49-52 | The chosen record becomes the edit draft and the dialog opens; the list, the create draft and the filters are unchanged |
| App.UserManagement.HandleDelete | src/App.jsx:54-56 | The list becomes Remove of the old list by the id; the dialog, both drafts and the filters are unchanged |
| App.UserManagement.OpenDialog | src/App.jsx:101 | Add User only opens the dialog; the list, both drafts and the filters are unchanged |
| App.UserManagement.CloseDialog | src/App.jsx:163 | Closing the dialog (its close request here and the Cancel button at line 224) only sets `dialogOpen` to false; the list, both drafts and the filters are unchanged |
| App.UserManagement.SetSearch | src/App.jsx:83 | Typing in the search box sets `search` and nothing else |
| App.UserManagement.SetStatusFilter | src/App.jsx:89 | Choosing a status in the toolbar sets `statusFilter` and nothing else |
| App.UserManagement.ChangeField | src/App.jsx:170-218 | The active draft (the edit draft if there is one, otherwise the create draft) becomes Set of itself at the field. The edit draft keeps its id. The other draft, the list, the dialog and the filters are unchanged |
| App.CancelledEditReopensInEditMode | src/App.jsx:224 | Edit, cancel, then Add User leaves the dialog open with the abandoned edit draft still active and the list unchanged |
| App.EditAndSave | src/App.jsx:38-52 | Editing one field of record k and saving keeps the list's length and ids, turns every record carrying k's id into record k with only field f set to the new value (its other four fields and its id kept), and leaves every record with another id unchanged |

## Left out

- Rendering: the JSX, the MUI components, the styling and the photo `<img>` (src/App.jsx:64-235, apart from the handler bodies). They hold no logic to state.
- `Date.now()` as the source of new ids (src/App.jsx:43): it is a clock read. `HandleAddUser` takes the id as the parameter `now`. Two adds in the same millisecond would get the same id, so the model claims no global uniqueness. It proves only that a fresh id keeps distinct ids distinct.
- Text.Lower: lower-cases only the ASCII capitals A-Z. `toLowerCase` also maps other Unicode capitals, and some of them change the string's length; this is not modelled.
- React's batching of state updates and re-render scheduling: each handler is one atomic transition. It reads the state as it was before the event.
- Event objects: each `onChange` takes the new string value directly.
- The Status selectors offer only "", "Active" and "Inactive". The model allows any string for the status and the status filter. It follows the code's truthiness test, where only the empty string turns the filter off.
- Ids are integers compared with `==`, standing for the numbers `Date.now()` returns and for `===` on them.
- The edit draft first shares the object of the row being edited. Every field change builds a new object by spreading, so no record in the list is ever mutated through it. The model therefore uses values; aliasing is not modelled.
