/** The application as a whole: a world of database and session, the requests
    the routes accept, and runs of requests one after another. */
module App {
  import opened Optional
  import opened Validation
  import opened Db
  import opened Handlers
  import opened Invariants

  datatype World = World(store: Store, session: Session)

  /** The POST (or, for the deletes and logout, GET) requests that can
      change the world. A registration carries the hash werkzeug made of its
      password, since that hash is salted at random. */
  datatype Request =
    | RegisterReq(registration: RegisterForm, hash: string)
    | LoginReq(email: string, password: string)
    | LogoutReq
    | CreateMovieReq(form: MovieForm)
    | EditMovieReq(movieId: nat, form: MovieForm)
    | DeleteMovieReq(movieId: nat)
    | AddCommentReq(movieId: nat, contenido: string)
    | DeleteCommentReq(commentId: nat)

  datatype StepResult = StepResult(outcome: Outcome, world: World)

  datatype Trace = Trace(outcomes: seq<Outcome>, world: World)

  /** A world whose session, if any, names an existing user. */
  predicate WorldOk(w: World) {
    SessionOk(w.store, w.session)
  }

  /** One request, dispatched to its handler. Every request keeps the
      database valid and never removes a user; a world whose session names a
      user keeps that property, and no insert in it trips a foreign key. */
  function Step(w: World, req: Request, checkHash: (string, string) -> bool): (r: StepResult)
    requires Valid(w.store)
    ensures Valid(r.world.store)
    ensures w.store.users.Keys <= r.world.store.users.Keys
    ensures WorldOk(w) ==> WorldOk(r.world) && r.outcome != StoreError
    ensures !req.LoginReq? && !req.LogoutReq? ==> r.world.session == w.session
  {
    var s := w.store;
    match req
    case RegisterReq(f, hash) =>
      RegisterPreservesValid(s, f, hash);
      var r := Register(s, f, hash);
      StepResult(r.outcome, w.(store := r.store))
    case LoginReq(email, password) =>
      var r := Login(s, w.session, email, password, checkHash);
      StepResult(r.outcome, w.(session := r.session))
    case LogoutReq =>
      var r := Logout();
      StepResult(r.outcome, w.(session := r.session))
    case CreateMovieReq(f) =>
      CreateMoviePreservesValid(s, w.session, f);
      var r := CreateMovie(s, w.session, f);
      StepResult(r.outcome, w.(store := r.store))
    case EditMovieReq(movieId, f) =>
      EditMoviePreservesValid(s, w.session, movieId, f);
      var r := EditMovie(s, w.session, movieId, f);
      StepResult(r.outcome, w.(store := r.store))
    case DeleteMovieReq(movieId) =>
      DeleteMoviePreservesValid(s, w.session, movieId);
      var r := DeleteMovie(s, w.session, movieId);
      StepResult(r.outcome, w.(store := r.store))
    case AddCommentReq(movieId, contenido) =>
      AddCommentPreservesValid(s, w.session, movieId, contenido);
      var r := AddComment(s, w.session, movieId, contenido);
      StepResult(r.outcome, w.(store := r.store))
    case DeleteCommentReq(commentId) =>
      DeleteCommentPreservesValid(s, w.session, commentId);
      var r := DeleteComment(s, w.session, commentId);
      StepResult(r.outcome, w.(store := r.store))
  }

  /** Requests handled one after another, with the outcome of each. */
  function Run(w: World, reqs: seq<Request>, checkHash: (string, string) -> bool): (r: Trace)
    requires Valid(w.store)
    ensures |r.outcomes| == |reqs|
    ensures Valid(r.world.store)
    ensures w.store.users.Keys <= r.world.store.users.Keys
    ensures WorldOk(w) ==> WorldOk(r.world)
    ensures WorldOk(w) ==> forall i :: 0 <= i < |reqs| ==> r.outcomes[i] != StoreError
    decreases |reqs|
  {
    if reqs == [] then
      Trace([], w)
    else
      var first := Step(w, reqs[0], checkHash);
      var rest := Run(first.world, reqs[1..], checkHash);
      Trace([first.outcome] + rest.outcomes, rest.world)
  }

  /** Whatever is asked of a fresh application, the database stays valid
      and no write is refused by a foreign key. */
  lemma FreshRunsStayValid(reqs: seq<Request>, checkHash: (string, string) -> bool)
    ensures Valid(Empty)
    ensures var r := Run(World(Empty, None), reqs, checkHash);
            && Valid(r.world.store)
            && forall i :: 0 <= i < |reqs| ==> r.outcomes[i] != StoreError
  {
    EmptyValid();
  }
}
