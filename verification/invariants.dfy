/** What the handlers keep true of the database, and how they relate to one
    another: each write preserves `Valid` (unique emails and titles, the
    foreign keys, no comment by a movie's owner), and the promises of the
    schema and the routes that span more than one call. */
module Invariants {
  import opened Optional
  import opened Validation
  import opened Db
  import opened Handlers

  /** The session names a user that exists, as it does after a login. */
  predicate SessionOk(s: Store, session: Session) {
    session.Some? ==> session.value.userId in s.users
  }

  // ----- register -----

  lemma RegisterPreservesValid(s: Store, f: RegisterForm, hash: string)
    requires Valid(s)
    ensures Valid(Register(s, f, hash).store)
  {
    var r := Register(s, f, hash);
    if r.outcome.Ok? {
      var u := User(f.email, f.nombre, f.apellido, hash);
      assert r.store == s.(users := s.users[s.nextUserId := u], nextUserId := s.nextUserId + 1);
      InsertUserKeepsValid(s, u);
    }
  }

  /** The insert of register(): a row under the next id, with an email no
      user has yet. */
  lemma InsertUserKeepsValid(s: Store, u: User)
    requires Valid(s) && !EmailTaken(s.users, u.email)
    ensures Valid(s.(users := s.users[s.nextUserId := u], nextUserId := s.nextUserId + 1))
  {
    var t := s.(users := s.users[s.nextUserId := u], nextUserId := s.nextUserId + 1);
    forall a, b | a in t.users && b in t.users && t.users[a].email == t.users[b].email
      ensures a == b
    {
    }
  }

  lemma UsersWithEmailInsert(users: map<nat, User>, id: nat, u: User)
    requires id !in users && UsersWithEmail(users, u.email) == {}
    ensures |users[id := u]| == |users| + 1
    ensures UsersWithEmail(users[id := u], u.email) == {id}
  {
    assert users[id := u].Keys == users.Keys + {id};
  }

  /** A successful registration adds exactly one user, the only one with
      that email; a refused one adds none. */
  lemma RegisterAddsExactlyOne(s: Store, f: RegisterForm, hash: string)
    requires Valid(s)
    ensures var r := Register(s, f, hash);
            r.outcome.Ok? ==>
              && UsersWithEmail(r.store.users, f.email) == {s.nextUserId}
              && |r.store.users| == |s.users| + 1
    ensures var r := Register(s, f, hash);
            !r.outcome.Ok? ==> UsersWithEmail(r.store.users, f.email) == UsersWithEmail(s.users, f.email)
  {
    var r := Register(s, f, hash);
    if r.outcome.Ok? {
      var u := User(f.email, f.nombre, f.apellido, hash);
      assert r.store.users == s.users[s.nextUserId := u];
      assert UsersWithEmail(s.users, f.email) == {};
      UsersWithEmailInsert(s.users, s.nextUserId, u);
    }
  }

  /** Registering an email a second time is a conflict that adds no user. */
  lemma RegisterTwiceConflicts(s: Store, f: RegisterForm, hash: string, g: RegisterForm, hash': string)
    requires Valid(s)
    requires Register(s, f, hash).outcome.Ok?
    requires g.email == f.email && RegistrationOk(g)
    ensures var t := Register(s, f, hash).store;
            Register(t, g, hash') == Reply(Conflict, t)
  {
    var t := Register(s, f, hash).store;
    assert t.users[s.nextUserId].email == g.email;
  }

  // ----- login / logout -----

  /** The one failure login() reports: an unknown email and a wrong password
      give the same reply and keep the session. */
  lemma LoginFailureIndistinguishable(s: Store, session: Session, email: string, password: string,
                                      checkHash: (string, string) -> bool)
    requires EmailsUnique(s.users)
    requires email != [] && password != []
    requires !EmailTaken(s.users, email) ||
             exists id | id in s.users :: s.users[id].email == email && !checkHash(s.users[id].passwordHash, password)
    ensures Login(s, session, email, password, checkHash) == SessionReply(AuthFailed, session)
  {
    if EmailTaken(s.users, email) {
      var id :| id in s.users && s.users[id].email == email && !checkHash(s.users[id].passwordHash, password);
      forall id' | id' in s.users && s.users[id'].email == email
        ensures !checkHash(s.users[id'].passwordHash, password)
      {
        assert id' == id;
      }
    }
  }

  /** Registering and then logging in with the same password succeeds, as the
      user just added, provided `checkHash` accepts the stored hash for that
      password. */
  lemma RegisterThenLogin(s: Store, session: Session, f: RegisterForm, hash: string,
                          checkHash: (string, string) -> bool)
    requires Valid(s)
    requires Register(s, f, hash).outcome.Ok?
    requires checkHash(hash, f.password)
    ensures var t := Register(s, f, hash).store;
            EmailsUnique(t.users) &&
            Login(t, session, f.email, f.password, checkHash)
              == SessionReply(Ok, Some(SessionUser(s.nextUserId, f.email, f.nombre)))
  {
    RegisterPreservesValid(s, f, hash);
    var t := Register(s, f, hash).store;
    assert t.users[s.nextUserId].email == f.email;
  }

  /** A login that succeeds leaves a session naming an existing user. */
  lemma LoginEstablishesSession(s: Store, session: Session, email: string, password: string,
                                checkHash: (string, string) -> bool)
    requires EmailsUnique(s.users)
    requires SessionOk(s, session)
    ensures SessionOk(s, Login(s, session, email, password, checkHash).session)
  {
  }

  /** After logout() every handler that needs a login refuses, writes nothing,
      and shows nothing. */
  lemma LogoutLocksOut(s: Store, movieId: nat, commentId: nat, f: MovieForm, contenido: string)
    ensures var session := Logout().session;
            && CreateMovie(s, session, f) == Reply(NotLoggedIn, s)
            && EditMovie(s, session, movieId, f) == Reply(NotLoggedIn, s)
            && DeleteMovie(s, session, movieId) == Reply(NotLoggedIn, s)
            && AddComment(s, session, movieId, contenido) == Reply(NotLoggedIn, s)
            && DeleteComment(s, session, commentId) == Reply(NotLoggedIn, s)
            && Dashboard(s, session) == Page(NotLoggedIn, {})
            && ViewMovie(s, session, movieId) == Page(NotLoggedIn, {})
  {
  }

  // ----- listings -----

  /** With the foreign keys in force the join with `users` loses no movie:
      the dashboard shows every movie. */
  lemma DashboardShowsAll(s: Store, session: Session)
    requires Valid(s) && session.Some?
    ensures Dashboard(s, session) == Page(Ok, s.movies.Keys)
  {
  }

  /** With the foreign keys in force a movie page is missing only when the
      movie is, and it lists every comment on the movie. */
  lemma ViewMovieUnderValid(s: Store, session: Session, movieId: nat)
    requires Valid(s) && session.Some?
    ensures ViewMovie(s, session, movieId).outcome == NotFound <==> movieId !in s.movies
    ensures movieId in s.movies ==> ViewMovie(s, session, movieId) == Page(Ok, CommentsOf(s.comments, movieId))
  {
  }

  // ----- movies -----

  lemma CreateMoviePreservesValid(s: Store, session: Session, f: MovieForm)
    requires Valid(s)
    ensures Valid(CreateMovie(s, session, f).store)
  {
    var r := CreateMovie(s, session, f);
    if r.outcome.Ok? {
      var m := Movie(f.titulo, f.director, f.fechaEstreno, f.sinopsis, session.value.userId);
      assert r.store == s.(movies := s.movies[s.nextMovieId := m], nextMovieId := s.nextMovieId + 1);
      InsertMovieKeepsValid(s, m);
    }
  }

  /** The insert of nueva_pelicula(): a row under the next id, with a title
      no movie has yet and an owner that exists. */
  lemma InsertMovieKeepsValid(s: Store, m: Movie)
    requires Valid(s) && !TitleTaken(s.movies, m.titulo) && m.userId in s.users
    ensures Valid(s.(movies := s.movies[s.nextMovieId := m], nextMovieId := s.nextMovieId + 1))
  {
    assert !TitleTakenByOther(s.movies, m.titulo, s.nextMovieId);
    var t := s.(movies := s.movies[s.nextMovieId := m], nextMovieId := s.nextMovieId + 1);
    NewTitleKeepsUnique(s.movies, s.nextMovieId, m);
    assert NoSelfComments(t) by {
      forall c | c in t.comments
        ensures t.comments[c].movieId in s.movies
      {
      }
    }
  }

  lemma MoviesTitledInsert(movies: map<nat, Movie>, id: nat, m: Movie)
    requires id !in movies && MoviesTitled(movies, m.titulo) == {}
    ensures |movies[id := m]| == |movies| + 1
    ensures MoviesTitled(movies[id := m], m.titulo) == {id}
  {
    assert movies[id := m].Keys == movies.Keys + {id};
  }

  /** A successful create adds exactly one movie, the only one with its title,
      owned by the session user. */
  lemma CreateMovieAddsExactlyOne(s: Store, session: Session, f: MovieForm)
    requires Valid(s)
    ensures var r := CreateMovie(s, session, f);
            r.outcome.Ok? ==>
              && MoviesTitled(r.store.movies, f.titulo) == {s.nextMovieId}
              && |r.store.movies| == |s.movies| + 1
              && r.store.movies[s.nextMovieId].userId == session.value.userId
  {
    var r := CreateMovie(s, session, f);
    if r.outcome.Ok? {
      var m := Movie(f.titulo, f.director, f.fechaEstreno, f.sinopsis, session.value.userId);
      assert r.store.movies == s.movies[s.nextMovieId := m];
      assert MoviesTitled(s.movies, f.titulo) == {};
      MoviesTitledInsert(s.movies, s.nextMovieId, m);
    }
  }

  /** The same title cannot be filed twice: whoever tries second gets a conflict. */
  lemma CreateMovieTwiceConflicts(s: Store, session: Session, f: MovieForm,
                                  session': Session, g: MovieForm)
    requires CreateMovie(s, session, f).outcome.Ok?
    requires session'.Some? && MovieFormOk(g) && g.titulo == f.titulo
    ensures var t := CreateMovie(s, session, f).store;
            CreateMovie(t, session', g) == Reply(Conflict, t)
  {
    var t := CreateMovie(s, session, f).store;
    assert t.movies[s.nextMovieId].titulo == g.titulo;
  }

  lemma EditMoviePreservesValid(s: Store, session: Session, movieId: nat, f: MovieForm)
    requires Valid(s)
    ensures Valid(EditMovie(s, session, movieId, f).store)
  {
    var r := EditMovie(s, session, movieId, f);
    if r.outcome.Ok? {
      var m := s.movies[movieId].(titulo := f.titulo, director := f.director,
                                  fechaEstreno := f.fechaEstreno, sinopsis := f.sinopsis);
      assert r.store == s.(movies := s.movies[movieId := m]);
      UpdateMovieKeepsValid(s, movieId, m);
    }
  }

  /** The UPDATE of editar_pelicula(): the row keeps its owner and takes a
      title no other movie has. */
  lemma UpdateMovieKeepsValid(s: Store, movieId: nat, m: Movie)
    requires Valid(s) && movieId in s.movies && m.userId == s.movies[movieId].userId
    requires !TitleTakenByOther(s.movies, m.titulo, movieId)
    ensures Valid(s.(movies := s.movies[movieId := m]))
  {
    var t := s.(movies := s.movies[movieId := m]);
    NewTitleKeepsUnique(s.movies, movieId, m);
    assert t.movies.Keys == s.movies.Keys;
  }

  /** Writing row `id` with a title no other row has keeps titles unique,
      whether the row is new or rewritten. */
  lemma NewTitleKeepsUnique(movies: map<nat, Movie>, id: nat, m: Movie)
    requires TitlesUnique(movies) && !TitleTakenByOther(movies, m.titulo, id)
    ensures TitlesUnique(movies[id := m])
  {
  }

  /** An edit may keep the movie's own title. */
  lemma EditMovieKeepsOwnTitle(s: Store, session: Session, movieId: nat, f: MovieForm)
    requires Valid(s)
    requires OwnsMovie(s, session, movieId) && MovieFormOk(f)
    requires f.titulo == s.movies[movieId].titulo
    ensures EditMovie(s, session, movieId, f).outcome.Ok?
  {
  }

  lemma DeleteMoviePreservesValid(s: Store, session: Session, movieId: nat)
    requires Valid(s)
    ensures Valid(DeleteMovie(s, session, movieId).store)
  {
  }

  /** After a successful delete no comment is left on the movie, and every
      comment still refers to a movie that exists. */
  lemma DeleteMovieLeavesNoComments(s: Store, session: Session, movieId: nat)
    requires Valid(s)
    ensures var r := DeleteMovie(s, session, movieId);
            r.outcome.Ok? ==>
              && movieId !in r.store.movies
              && CommentsOf(r.store.comments, movieId) == {}
              && forall c | c in r.store.comments :: r.store.comments[c].movieId in r.store.movies
  {
    var r := DeleteMovie(s, session, movieId);
    if r.outcome.Ok? {
      forall c | c in r.store.comments
        ensures r.store.comments[c].movieId in r.store.movies
      {
        assert c !in CommentsOf(s.comments, movieId);
      }
    }
  }

  // ----- comments -----

  lemma AddCommentPreservesValid(s: Store, session: Session, movieId: nat, contenido: string)
    requires Valid(s)
    ensures Valid(AddComment(s, session, movieId, contenido).store)
  {
    var r := AddComment(s, session, movieId, contenido);
    if r.outcome.Ok? {
      var id := s.nextCommentId;
      var t := s.(comments := s.comments[id := Comment(contenido, movieId, session.value.userId)],
                  nextCommentId := id + 1);
      assert r.store == t;
      InsertCommentKeepsValid(s, Comment(contenido, movieId, session.value.userId));
    }
  }

  lemma CommentsOfInsert(comments: map<nat, Comment>, id: nat, c: Comment)
    requires id !in comments
    ensures |comments[id := c]| == |comments| + 1
    ensures CommentsOf(comments[id := c], c.movieId) == CommentsOf(comments, c.movieId) + {id}
  {
    assert comments[id := c].Keys == comments.Keys + {id};
  }

  lemma InsertCommentKeepsValid(s: Store, c: Comment)
    requires Valid(s)
    requires c.movieId in s.movies && c.userId in s.users && c.userId != s.movies[c.movieId].userId
    ensures Valid(s.(comments := s.comments[s.nextCommentId := c], nextCommentId := s.nextCommentId + 1))
  {
  }

  /** A successful comment adds exactly one row, written by the session user. */
  lemma AddCommentAddsExactlyOne(s: Store, session: Session, movieId: nat, contenido: string)
    requires Valid(s)
    ensures var r := AddComment(s, session, movieId, contenido);
            r.outcome.Ok? ==>
              && |r.store.comments| == |s.comments| + 1
              && CommentsOf(r.store.comments, movieId) == CommentsOf(s.comments, movieId) + {s.nextCommentId}
  {
    var r := AddComment(s, session, movieId, contenido);
    if r.outcome.Ok? {
      var id := s.nextCommentId;
      var c := Comment(contenido, movieId, session.value.userId);
      assert r.store.comments == s.comments[id := c];
      CommentsOfInsert(s.comments, id, c);
    }
  }

  lemma DeleteCommentPreservesValid(s: Store, session: Session, commentId: nat)
    requires Valid(s)
    ensures Valid(DeleteComment(s, session, commentId).store)
  {
  }

  /** A successful delete removes exactly that one comment. */
  lemma DeleteCommentRemovesExactlyOne(s: Store, session: Session, commentId: nat)
    ensures var r := DeleteComment(s, session, commentId);
            r.outcome.Ok? ==> commentId !in r.store.comments && |r.store.comments| == |s.comments| - 1
  {
  }

  /** With a session naming an existing user, no insert is refused by a
      foreign key. */
  lemma NoStoreErrorWithSession(s: Store, session: Session, f: MovieForm, movieId: nat, contenido: string)
    requires SessionOk(s, session)
    ensures CreateMovie(s, session, f).outcome != StoreError
    ensures AddComment(s, session, movieId, contenido).outcome != StoreError
  {
  }
}
