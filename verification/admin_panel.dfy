/** The admin panel's form: its text fields, the id of the entry being
    edited, and the submit rule that turns the form into an add or an edit
    of the admin page's catalog. */
module AdminPanel {
  import opened Games
  import AdminPage

  /** The form fields, all held as text. */
  datatype Form = Form(
    title: string,
    category: string,
    price: string,
    duration: string,
    players: string,
    description: string,
    image: string,
    rating: string,
    ageLimit: string)

  /** The blank form: every field empty except the rating and age limit. */
  const BlankForm: Form := Form("", "", "", "", "", "", "", "4.5", "All")

  /** `editingId` is `null` (None) or an id. */
  datatype Panel = Panel(form: Form, editingId: Option<int>)

  /** What the submit handler calls: `onAddGame` or `onEditGame`. */
  datatype Submission = AddRequest(game: Game) | EditRequest(game: Game)

  /** JavaScript truthiness of `editingId`: `null` and `0` are falsy. */
  predicate Editing(editingId: Option<int>)
  {
    editingId.Some? && editingId.value != 0
  }

  /** `resetForm`: back to the blank form, editing nothing. */
  function ResetForm(p: Panel): (r: Panel)
    ensures r.form.title == "" && r.form.category == "" && r.form.price == ""
    ensures r.form.duration == "" && r.form.players == ""
    ensures r.form.description == "" && r.form.image == ""
    ensures r.form.rating == "4.5" && r.form.ageLimit == "All"
    ensures !Editing(r.editingId) && r.editingId == None
  {
    Panel(BlankForm, None)
  }

  /** Resetting an already reset panel changes nothing. */
  lemma ResetFormIdempotent(p: Panel)
    ensures ResetForm(ResetForm(p)) == ResetForm(p)
  {
  }

  /** `handleSubmit`. The clock reading `now` stands in for `Date.now()`
      and `parseNumber` for `parseFloat`. Returns the callback invoked and
      the panel after the form is reset. */
  function Submit(p: Panel, now: int, parseNumber: string -> real): (r: (Submission, Panel))
    ensures r.0.EditRequest? <==> Editing(p.editingId)
    ensures Editing(p.editingId) ==> r.0.game.id == p.editingId.value
    ensures !Editing(p.editingId) ==> r.0.game.id == now
    ensures r.0.game.title == p.form.title && r.0.game.category == p.form.category
    ensures r.0.game.duration == p.form.duration && r.0.game.players == p.form.players
    ensures r.0.game.description == p.form.description && r.0.game.image == p.form.image
    ensures r.0.game.ageLimit == p.form.ageLimit
    ensures r.0.game.price == parseNumber(p.form.price)
    ensures r.0.game.rating == parseNumber(p.form.rating)
    ensures r.1 == ResetForm(p)
  {
    var f := p.form;
    var id := if Editing(p.editingId) then p.editingId.value else now;
    var game := Game(id, f.title, f.category, parseNumber(f.price), f.duration, f.players,
                     f.description, f.image, parseNumber(f.rating), f.ageLimit);
    var submission := if Editing(p.editingId) then EditRequest(game) else AddRequest(game);
    (submission, ResetForm(p))
  }

  /** The admin page's handler for a submission. */
  function Apply(games: seq<Game>, s: Submission): (r: seq<Game>)
    ensures s.AddRequest? ==> |r| == |games| + 1 && r[..|games|] == games && r[|games|] == s.game
    ensures s.EditRequest? ==> |r| == |games| && Ids(r) == Ids(games)
    ensures s.EditRequest? ==> forall i :: 0 <= i < |games| ==>
      r[i] == if games[i].id == s.game.id then s.game else games[i]
  {
    match s
    case AddRequest(g) => AdminPage.AddGame(games, g)
    case EditRequest(g) =>
      AdminPage.EditKeepsIds(games, g);
      AdminPage.EditGame(games, g)
  }

  /** Submitting a new entry under a fresh clock reading and then deleting
      that id gives back the catalog. */
  lemma SubmitAddThenDelete(games: seq<Game>, p: Panel, now: int, parseNumber: string -> real)
    requires !Editing(p.editingId) && !HasId(games, now)
    ensures AdminPage.DeleteGame(Apply(games, Submit(p, now, parseNumber).0), now) == games
  {
    AdminPage.AddThenDelete(games, Submit(p, now, parseNumber).0.game);
  }

  /** Every submission keeps catalog ids unique, provided an add uses a
      clock reading no entry has as its id. */
  lemma SubmitKeepsIdsUnique(games: seq<Game>, p: Panel, now: int, parseNumber: string -> real)
    requires UniqueIds(games)
    requires !Editing(p.editingId) ==> !HasId(games, now)
    ensures UniqueIds(Apply(games, Submit(p, now, parseNumber).0))
  {
    var s := Submit(p, now, parseNumber).0;
    if s.EditRequest? {
      AdminPage.EditKeepsIds(games, s.game);
    } else {
      AdminPage.CrudKeepsIdsUnique(games, s.game, now);
    }
  }
}
