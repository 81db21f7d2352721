/** The route handlers of app.py, each a function from the database, the
    session and the submitted form to an outcome and the database (or session)
    afterwards. The flashed message and the redirect a handler ends with are
    represented by its `Outcome` alone. */
module Handlers {
  import opened Optional
  import opened Validation
  import opened Db

  /** How a request ended. `StoreError` is a write the database refused: an
      insert whose `user_id` names no user violates the foreign key. */
  datatype Outcome =
    | Ok
    | NotLoggedIn
    | Invalid(reason: Reason)
    | Conflict
    | NotFound
    | Forbidden
    | AuthFailed
    | StoreError

  /** The `user_id`, `user_email` and `user_nombre` keys login() stores in the session. */
  datatype SessionUser = SessionUser(userId: nat, email: string, nombre: string)

  type Session = Option<SessionUser>

  /** The outcome of a handler that writes to the database. */
  datatype Reply = Reply(outcome: Outcome, store: Store)

  /** The outcome of login() or logout(), which change only the session. */
  datatype SessionReply = SessionReply(outcome: Outcome, session: Session)

  /** The outcome of a read-only page and the row ids it lists. */
  datatype Page = Page(outcome: Outcome, shown: set<nat>)

  /** The session user owns movie `movieId`: the guard of edit and delete. */
  predicate OwnsMovie(s: Store, session: Session, movieId: nat) {
    session.Some? && movieId in s.movies && s.movies[movieId].userId == session.value.userId
  }

  /** register(): checks the form, refuses a taken email, and otherwise inserts
      the user with the hash `generate_password_hash` produced for the password. */
  function Register(s: Store, f: RegisterForm, hash: string): (r: Reply)
    ensures r.outcome.Invalid? <==> !RegistrationOk(f)
    ensures r.outcome.Invalid? ==> Some(r.outcome.reason) == CheckRegistration(f)
    ensures r.outcome == Conflict <==> RegistrationOk(f) && EmailTaken(s.users, f.email)
    ensures r.outcome.Ok? <==> RegistrationOk(f) && !EmailTaken(s.users, f.email)
    ensures !r.outcome.Ok? ==> r.store == s
    ensures r.outcome.Ok? ==>
              && r.store == s.(users := r.store.users, nextUserId := s.nextUserId + 1)
              && r.store.users.Keys == s.users.Keys + {s.nextUserId}
              && r.store.users[s.nextUserId] == User(f.email, f.nombre, f.apellido, hash)
              && (forall id | id in s.users && id != s.nextUserId :: r.store.users[id] == s.users[id])
  {
    match CheckRegistration(f)
    case Some(reason) => Reply(Invalid(reason), s)
    case None =>
      if EmailTaken(s.users, f.email) then
        Reply(Conflict, s)
      else
        var id := s.nextUserId;
        var users := s.users[id := User(f.email, f.nombre, f.apellido, hash)];
        Reply(Ok, s.(users := users, nextUserId := id + 1))
  }

  /** login(): looks the email up and checks the password against the stored
      hash with `checkHash` (werkzeug's `check_password_hash`). An unknown
      email and a wrong password end the same way. Emails are unique, so the
      lookup finds at most one user. */
  function Login(s: Store, session: Session, email: string, password: string,
                 checkHash: (string, string) -> bool): (r: SessionReply)
    requires EmailsUnique(s.users)
    ensures r.outcome == Invalid(MissingField) <==> email == [] || password == []
    ensures r.outcome.Ok? <==>
              && email != [] && password != []
              && exists id | id in s.users ::
                   s.users[id].email == email && checkHash(s.users[id].passwordHash, password)
    ensures r.outcome.Ok? || r.outcome == Invalid(MissingField) || r.outcome == AuthFailed
    ensures !r.outcome.Ok? ==> r.session == session
    ensures r.outcome.Ok? ==>
              && r.session.Some?
              && r.session.value.userId in s.users
              && r.session.value.email == email
              && s.users[r.session.value.userId].email == email
              && r.session.value.nombre == s.users[r.session.value.userId].nombre
              && checkHash(s.users[r.session.value.userId].passwordHash, password)
  {
    if email == [] || password == [] then
      SessionReply(Invalid(MissingField), session)
    else if EmailTaken(s.users, email) then
      var id :| id in s.users && s.users[id].email == email;
      var u := s.users[id];
      if checkHash(u.passwordHash, password) then
        SessionReply(Ok, Some(SessionUser(id, u.email, u.nombre)))
      else
        SessionReply(AuthFailed, session)
    else
      SessionReply(AuthFailed, session)
  }

  /** logout(): drops the three session keys, whatever the session held. */
  function Logout(): (r: SessionReply)
    ensures r.outcome.Ok? && r.session.None?
  {
    SessionReply(Ok, None)
  }

  /** nueva_pelicula(): a logged-in user files a movie under their own id.
      The title must not be in use by any movie. */
  function CreateMovie(s: Store, session: Session, f: MovieForm): (r: Reply)
    ensures r.outcome == NotLoggedIn <==> session.None?
    ensures r.outcome.Invalid? <==> session.Some? && !MovieFormOk(f)
    ensures r.outcome.Invalid? ==> Some(r.outcome.reason) == CheckMovie(f)
    ensures r.outcome == Conflict <==>
              session.Some? && MovieFormOk(f) && TitleTaken(s.movies, f.titulo)
    ensures r.outcome == StoreError <==>
              && session.Some? && MovieFormOk(f) && !TitleTaken(s.movies, f.titulo)
              && session.value.userId !in s.users
    ensures r.outcome.Ok? <==>
              && session.Some? && MovieFormOk(f) && !TitleTaken(s.movies, f.titulo)
              && session.value.userId in s.users
    ensures !r.outcome.Ok? ==> r.store == s
    ensures r.outcome.Ok? ==>
              && r.store == s.(movies := r.store.movies, nextMovieId := s.nextMovieId + 1)
              && r.store.movies.Keys == s.movies.Keys + {s.nextMovieId}
              && r.store.movies[s.nextMovieId]
                 == Movie(f.titulo, f.director, f.fechaEstreno, f.sinopsis, session.value.userId)
              && (forall id | id in s.movies && id != s.nextMovieId :: r.store.movies[id] == s.movies[id])
  {
    if session.None? then
      Reply(NotLoggedIn, s)
    else
      match CheckMovie(f)
      case Some(reason) => Reply(Invalid(reason), s)
      case None =>
        if TitleTaken(s.movies, f.titulo) then
          Reply(Conflict, s)
        else if session.value.userId !in s.users then
          Reply(StoreError, s)
        else
          var id := s.nextMovieId;
          var m := Movie(f.titulo, f.director, f.fechaEstreno, f.sinopsis, session.value.userId);
          Reply(Ok, s.(movies := s.movies[id := m], nextMovieId := id + 1))
  }

  /** editar_pelicula() on POST: the owner rewrites the four editable fields.
      The new title may repeat the movie's own but no other movie's. */
  function EditMovie(s: Store, session: Session, movieId: nat, f: MovieForm): (r: Reply)
    ensures r.outcome == NotLoggedIn <==> session.None?
    ensures r.outcome == NotFound <==> session.Some? && movieId !in s.movies
    ensures r.outcome == Forbidden <==>
              session.Some? && movieId in s.movies && s.movies[movieId].userId != session.value.userId
    ensures r.outcome.Invalid? <==> OwnsMovie(s, session, movieId) && !MovieFormOk(f)
    ensures r.outcome.Invalid? ==> Some(r.outcome.reason) == CheckMovie(f)
    ensures r.outcome == Conflict <==>
              OwnsMovie(s, session, movieId) && MovieFormOk(f)
              && TitleTakenByOther(s.movies, f.titulo, movieId)
    ensures r.outcome.Ok? <==>
              OwnsMovie(s, session, movieId) && MovieFormOk(f)
              && !TitleTakenByOther(s.movies, f.titulo, movieId)
    ensures r.outcome != StoreError && r.outcome != AuthFailed
    ensures !r.outcome.Ok? ==> r.store == s
    ensures r.outcome.Ok? ==>
              && r.store == s.(movies := r.store.movies)
              && r.store.movies.Keys == s.movies.Keys
              && r.store.movies[movieId]
                 == Movie(f.titulo, f.director, f.fechaEstreno, f.sinopsis, s.movies[movieId].userId)
              && (forall id | id in s.movies && id != movieId :: r.store.movies[id] == s.movies[id])
  {
    if session.None? then
      Reply(NotLoggedIn, s)
    else if movieId !in s.movies then
      Reply(NotFound, s)
    else if s.movies[movieId].userId != session.value.userId then
      Reply(Forbidden, s)
    else
      match CheckMovie(f)
      case Some(reason) => Reply(Invalid(reason), s)
      case None =>
        if TitleTakenByOther(s.movies, f.titulo, movieId) then
          Reply(Conflict, s)
        else
          var m := s.movies[movieId].(titulo := f.titulo, director := f.director,
                                      fechaEstreno := f.fechaEstreno, sinopsis := f.sinopsis);
          Reply(Ok, s.(movies := s.movies[movieId := m]))
  }

  /** borrar_pelicula(): the owner deletes the movie, and the schema's
      cascade deletes its comments with it. */
  function DeleteMovie(s: Store, session: Session, movieId: nat): (r: Reply)
    ensures r.outcome == NotLoggedIn <==> session.None?
    ensures r.outcome == NotFound <==> session.Some? && movieId !in s.movies
    ensures r.outcome == Forbidden <==>
              session.Some? && movieId in s.movies && s.movies[movieId].userId != session.value.userId
    ensures r.outcome.Ok? <==> OwnsMovie(s, session, movieId)
    ensures !r.outcome.Ok? ==> r.store == s
    ensures r.outcome.Ok? ==>
              && r.store == s.(movies := r.store.movies, comments := r.store.comments)
              && r.store.movies.Keys == s.movies.Keys - {movieId}
              && r.store.comments.Keys == s.comments.Keys - CommentsOf(s.comments, movieId)
              && (forall m | m in r.store.movies :: r.store.movies[m] == s.movies[m])
              && (forall c | c in r.store.comments :: r.store.comments[c] == s.comments[c])
  {
    if session.None? then
      Reply(NotLoggedIn, s)
    else if movieId !in s.movies then
      Reply(NotFound, s)
    else if s.movies[movieId].userId != session.value.userId then
      Reply(Forbidden, s)
    else
      Reply(Ok, DeleteMovieCascade(s, movieId))
  }

  /** comentar_pelicula(): a logged-in user comments on a movie that exists
      and is not their own; a blank comment is refused before the movie is
      looked up. */
  function AddComment(s: Store, session: Session, movieId: nat, contenido: string): (r: Reply)
    ensures r.outcome == NotLoggedIn <==> session.None?
    ensures r.outcome.Invalid? <==> session.Some? && BlankComment(contenido)
    ensures r.outcome.Invalid? ==> r.outcome.reason == EmptyComment
    ensures r.outcome == NotFound <==>
              session.Some? && !BlankComment(contenido) && movieId !in s.movies
    ensures r.outcome == Forbidden <==>
              && session.Some? && !BlankComment(contenido) && movieId in s.movies
              && s.movies[movieId].userId == session.value.userId
    ensures r.outcome == StoreError <==>
              && session.Some? && !BlankComment(contenido) && movieId in s.movies
              && s.movies[movieId].userId != session.value.userId
              && session.value.userId !in s.users
    ensures r.outcome.Ok? <==>
              && session.Some? && !BlankComment(contenido) && movieId in s.movies
              && s.movies[movieId].userId != session.value.userId
              && session.value.userId in s.users
    ensures !r.outcome.Ok? ==> r.store == s
    ensures r.outcome.Ok? ==>
              && r.store == s.(comments := r.store.comments, nextCommentId := s.nextCommentId + 1)
              && r.store.comments.Keys == s.comments.Keys + {s.nextCommentId}
              && r.store.comments[s.nextCommentId] == Comment(contenido, movieId, session.value.userId)
              && (forall c | c in s.comments && c != s.nextCommentId :: r.store.comments[c] == s.comments[c])
  {
    if session.None? then
      Reply(NotLoggedIn, s)
    else if BlankComment(contenido) then
      Reply(Invalid(EmptyComment), s)
    else if movieId !in s.movies then
      Reply(NotFound, s)
    else if s.movies[movieId].userId == session.value.userId then
      Reply(Forbidden, s)
    else if session.value.userId !in s.users then
      Reply(StoreError, s)
    else
      var id := s.nextCommentId;
      var c := Comment(contenido, movieId, session.value.userId);
      Reply(Ok, s.(comments := s.comments[id := c], nextCommentId := id + 1))
  }

  /** borrar_comentario(): the author deletes their comment. */
  function DeleteComment(s: Store, session: Session, commentId: nat): (r: Reply)
    ensures r.outcome == NotLoggedIn <==> session.None?
    ensures r.outcome == NotFound <==> session.Some? && commentId !in s.comments
    ensures r.outcome == Forbidden <==>
              && session.Some? && commentId in s.comments
              && s.comments[commentId].userId != session.value.userId
    ensures r.outcome.Ok? <==>
              && session.Some? && commentId in s.comments
              && s.comments[commentId].userId == session.value.userId
    ensures !r.outcome.Ok? ==> r.store == s
    ensures r.outcome.Ok? ==>
              && r.store == s.(comments := r.store.comments)
              && r.store.comments.Keys == s.comments.Keys - {commentId}
              && (forall c | c in r.store.comments :: r.store.comments[c] == s.comments[c])
  {
    if session.None? then
      Reply(NotLoggedIn, s)
    else if commentId !in s.comments then
      Reply(NotFound, s)
    else if s.comments[commentId].userId != session.value.userId then
      Reply(Forbidden, s)
    else
      Reply(Ok, s.(comments := s.comments - {commentId}))
  }

  /** cine_dashboard(): the movies listed are those whose owner the join with
      `users` finds. */
  function Dashboard(s: Store, session: Session): (r: Page)
    ensures r.outcome == NotLoggedIn <==> session.None?
    ensures r.outcome == NotLoggedIn || r.outcome == Ok
    ensures r.outcome == NotLoggedIn ==> r.shown == {}
    ensures r.outcome.Ok? ==>
              forall m :: m in r.shown <==> m in s.movies && s.movies[m].userId in s.users
  {
    if session.None? then
      Page(NotLoggedIn, {})
    else
      Page(Ok, set m | m in s.movies && s.movies[m].userId in s.users)
  }

  /** ver_pelicula(): the movie is found only if the join with its owner
      succeeds, and the comments listed are those on it whose author the join
      finds. */
  function ViewMovie(s: Store, session: Session, movieId: nat): (r: Page)
    ensures r.outcome == NotLoggedIn <==> session.None?
    ensures r.outcome == NotFound <==>
              session.Some? && (movieId !in s.movies || s.movies[movieId].userId !in s.users)
    ensures r.outcome == NotLoggedIn || r.outcome == NotFound || r.outcome == Ok
    ensures !r.outcome.Ok? ==> r.shown == {}
    ensures r.outcome.Ok? ==>
              forall c :: c in r.shown <==>
                c in s.comments && s.comments[c].movieId == movieId && s.comments[c].userId in s.users
  {
    if session.None? then
      Page(NotLoggedIn, {})
    else if movieId !in s.movies || s.movies[movieId].userId !in s.users then
      Page(NotFound, {})
    else
      Page(Ok, set c | c in s.comments && s.comments[c].movieId == movieId && s.comments[c].userId in s.users)
  }
}
