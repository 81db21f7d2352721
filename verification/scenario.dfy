/** Two users walked through the routes request by request, starting from an
    empty database: both register and log in, the first files a movie, the
    second comments on it; a comment by the owner and a delete by the
    commenter are refused; the owner's delete takes the comment with it. */
module Scenario {
  import opened Optional
  import opened Text
  import opened Validation
  import opened Db
  import opened Handlers
  import opened Invariants

  /** A stand-in for werkzeug's hash check that accepts what `"h:" + password` stored. */
  function CheckHash(hash: string, password: string): bool {
    hash == "h:" + password
  }

  const Ana := RegisterForm("Ana", "Lopez", "secret12", "secret12", "ana@mail.com")
  const Beto := RegisterForm("Beto", "Diaz", "hunter22", "hunter22", "beto@mail.com")
  const Dune := MovieForm("Dune", "Denis Villeneuve", "2021-10-22", "A noble family on a desert planet")

  /** The inputs of the walk-through: two acceptable registrations under
      different emails, hashes the check accepts, an acceptable movie form
      and two comments that are not blank. */
  predicate Inputs(a: RegisterForm, b: RegisterForm, ha: string, hb: string,
                   checkHash: (string, string) -> bool, m: MovieForm, say: string, own: string) {
    && RegistrationOk(a) && RegistrationOk(b) && a.email != b.email
    && checkHash(ha, a.password) && checkHash(hb, b.password)
    && MovieFormOk(m) && !BlankComment(say) && !BlankComment(own)
  }

  /** Both users are registered: the first is user 1, the second user 2. */
  lemma TwoRegistrations(a: RegisterForm, b: RegisterForm, ha: string, hb: string)
    requires RegistrationOk(a) && RegistrationOk(b) && a.email != b.email
    ensures var s := Register(Register(Empty, a, ha).store, b, hb).store;
            && Register(Empty, a, ha).outcome == Ok
            && Register(Register(Empty, a, ha).store, b, hb).outcome == Ok
            && Valid(s)
            && s.users == map[1 := User(a.email, a.nombre, a.apellido, ha),
                              2 := User(b.email, b.nombre, b.apellido, hb)]
            && s.movies == map[] && s.comments == map[]
            && s.nextMovieId == 1 && s.nextCommentId == 1
  {
    EmptyValid();
    RegisterPreservesValid(Empty, a, ha);
    var s1 := Register(Empty, a, ha).store;
    assert s1.users == map[1 := User(a.email, a.nombre, a.apellido, ha)];
    assert !EmailTaken(s1.users, b.email);
    RegisterPreservesValid(s1, b, hb);
  }

  /** A registered user logs in with the password its hash accepts. */
  lemma LogsIn(s: Store, id: nat, f: RegisterForm, h: string, checkHash: (string, string) -> bool)
    requires Valid(s) && id in s.users && s.users[id] == User(f.email, f.nombre, f.apellido, h)
    requires RegistrationOk(f) && checkHash(h, f.password)
    ensures Login(s, None, f.email, f.password, checkHash)
              == SessionReply(Ok, Some(SessionUser(id, f.email, f.nombre)))
  {
    assert s.users[id].email == f.email;
  }

  /** The first user files the movie, which becomes movie 1. */
  lemma FilesMovie(s: Store, session: Session, m: MovieForm)
    requires Valid(s) && s.movies == map[] && s.nextMovieId == 1
    requires session.Some? && session.value.userId in s.users && MovieFormOk(m)
    ensures var r := CreateMovie(s, session, m);
            && r.outcome == Ok
            && r.store.movies.Keys == {1}
            && r.store.movies[1].userId == session.value.userId
            && r.store.users == s.users && r.store.comments == s.comments
            && r.store.nextCommentId == s.nextCommentId
  {
  }

  /** The comment, the refusals and the cascading delete on movie 1, owned by
      user 1 and commented on by user 2. */
  lemma CommentAndDelete(s: Store, owner: Session, other: Session, say: string, own: string)
    requires owner.Some? && owner.value.userId == 1
    requires other.Some? && other.value.userId == 2
    requires 2 in s.users && s.movies.Keys == {1} && s.movies[1].userId == 1
    requires s.comments == map[] && s.nextCommentId == 1
    requires !BlankComment(say) && !BlankComment(own)
    ensures var c := AddComment(s, other, 1, say);
            && c.outcome == Ok
            && CommentsOf(c.store.comments, 1) == {1}
            && AddComment(c.store, owner, 1, own) == Reply(Forbidden, c.store)
            && DeleteMovie(c.store, other, 1) == Reply(Forbidden, c.store)
            && DeleteMovie(c.store, owner, 1).outcome == Ok
            && CommentsOf(DeleteMovie(c.store, owner, 1).store.comments, 1) == {}
  {
    var c := AddComment(s, other, 1, say);
    assert c.store.comments.Keys == {1};
  }

  /** What the walk-through ends in, from a fresh database: both users are
      registered and each can log in; with the sessions the two logins
      establish, the first files the movie and the second comments on it;
      the owner's own comment and the commenter's delete are forbidden; and
      the owner's delete succeeds and leaves no comment on the movie. */
  predicate Story(a: RegisterForm, b: RegisterForm, ha: string, hb: string,
                  checkHash: (string, string) -> bool, m: MovieForm, say: string, own: string) {
    var s := Register(Register(Empty, a, ha).store, b, hb).store;
    && Valid(s)
    && Login(s, None, a.email, a.password, checkHash).outcome == Ok
    && Login(s, None, b.email, b.password, checkHash).outcome == Ok
    && var owner := Login(s, None, a.email, a.password, checkHash).session;
       var other := Login(s, None, b.email, b.password, checkHash).session;
       var filed := CreateMovie(s, owner, m);
       var c := AddComment(filed.store, other, 1, say);
       && filed.outcome == Ok
       && c.outcome == Ok
       && AddComment(c.store, owner, 1, own).outcome == Forbidden
       && DeleteMovie(c.store, other, 1).outcome == Forbidden
       && DeleteMovie(c.store, owner, 1).outcome == Ok
       && CommentsOf(DeleteMovie(c.store, owner, 1).store.comments, 1) == {}
  }

  /** The walk-through holds for any inputs that pass the form checks. */
  lemma Walkthrough(a: RegisterForm, b: RegisterForm, ha: string, hb: string,
                    checkHash: (string, string) -> bool, m: MovieForm, say: string, own: string)
    requires Inputs(a, b, ha, hb, checkHash, m, say, own)
    ensures Story(a, b, ha, hb, checkHash, m, say, own)
  {
    TwoRegistrations(a, b, ha, hb);
    var s := Register(Register(Empty, a, ha).store, b, hb).store;
    LogsIn(s, 1, a, ha, checkHash);
    LogsIn(s, 2, b, hb, checkHash);
    var owner := Some(SessionUser(1, a.email, a.nombre));
    var other := Some(SessionUser(2, b.email, b.nombre));
    FilesMovie(s, owner, m);
    CommentAndDelete(CreateMovie(s, owner, m).store, owner, other, say, own);
  }

  /** Each registration form passes every check of register(). */
  lemma AnaFormOk()
    ensures RegistrationOk(Ana)
  {
    ValidEmailOfShape("ana@mail.com", 3, 8);
  }

  lemma BetoFormOk()
    ensures RegistrationOk(Beto)
  {
    ValidEmailOfShape("beto@mail.com", 4, 9);
  }

  /** Neither comment is blank. */
  lemma CommentsNotBlank()
    ensures !BlankComment("Great film") && !BlankComment("My own movie")
  {
    NotBlank("Great film");
    NotBlank("My own movie");
  }

  /** The two users register under different emails. */
  lemma DistinctEmails()
    ensures Ana.email != Beto.email
  {
    assert Ana.email[0] != Beto.email[0];
  }

  /** Each stored hash verifies its user's password, and the movie form passes its checks. */
  lemma HashesAndMovieOk()
    ensures CheckHash("h:secret12", Ana.password) && CheckHash("h:hunter22", Beto.password)
    ensures MovieFormOk(Dune)
  {
  }

  /** A comment that starts with a non-space character is not blank. */
  lemma NotBlank(c: string)
    requires c != [] && !IsSpace(c[0])
    ensures !BlankComment(c)
  {
  }

  /** Ana, Beto, "Dune" and two ordinary comments meet the walk-through's
      requirements. */
  lemma AnaAndBetoQualify()
    ensures Inputs(Ana, Beto, "h:secret12", "h:hunter22", CheckHash, Dune, "Great film", "My own movie")
  {
    AnaFormOk();
    BetoFormOk();
    DistinctEmails();
    HashesAndMovieOk();
    CommentsNotBlank();
  }

  /** The walk-through, played by Ana, Beto and "Dune". */
  lemma AnaAndBetoWalkthrough()
    ensures Story(Ana, Beto, "h:secret12", "h:hunter22", CheckHash, Dune, "Great film", "My own movie")
  {
    AnaAndBetoQualify();
    Walkthrough(Ana, Beto, "h:secret12", "h:hunter22", CheckHash, Dune, "Great film", "My own movie");
  }

  /** Filing "Dune" a second time, by anyone, is a conflict. */
  lemma DuneTwice(s: Store, session: Session)
    requires 1 in s.movies && s.movies[1].titulo == Dune.titulo
    requires session.Some?
    ensures CreateMovie(s, session, Dune) == Reply(Conflict, s)
  {
    assert s.movies[1].titulo == Dune.titulo;
  }
}
