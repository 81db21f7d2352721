/** The three tables of the schema `init_db` creates, as maps from row id to
    row, together with the next value each AUTO_INCREMENT column hands out.
    Ids start at 1, as MySQL's do. */
module Db {

  datatype User = User(email: string, nombre: string, apellido: string, passwordHash: string)

  datatype Movie = Movie(
    titulo: string, director: string, fechaEstreno: string, sinopsis: string, userId: nat)

  datatype Comment = Comment(contenido: string, movieId: nat, userId: nat)

  datatype Store = Store(
    users: map<nat, User>,
    movies: map<nat, Movie>,
    comments: map<nat, Comment>,
    nextUserId: nat,
    nextMovieId: nat,
    nextCommentId: nat)

  /** The freshly created database. */
  const Empty: Store := Store(map[], map[], map[], 1, 1, 1)

  /** `SELECT id FROM users WHERE email = %s` finds a row. */
  predicate EmailTaken(users: map<nat, User>, email: string) {
    exists id | id in users :: users[id].email == email
  }

  /** `SELECT id FROM movies WHERE titulo = %s` finds a row. */
  predicate TitleTaken(movies: map<nat, Movie>, titulo: string) {
    exists id | id in movies :: movies[id].titulo == titulo
  }

  /** `SELECT id FROM movies WHERE titulo = %s AND id != %s` finds a row. */
  predicate TitleTakenByOther(movies: map<nat, Movie>, titulo: string, self: nat) {
    exists id | id in movies :: id != self && movies[id].titulo == titulo
  }

  /** The ids of the users registered under `email`. */
  function UsersWithEmail(users: map<nat, User>, email: string): set<nat> {
    set id | id in users && users[id].email == email
  }

  /** The ids of the movies titled `titulo`. */
  function MoviesTitled(movies: map<nat, Movie>, titulo: string): set<nat> {
    set id | id in movies && movies[id].titulo == titulo
  }

  /** The ids of the comments on movie `movieId`. */
  function CommentsOf(comments: map<nat, Comment>, movieId: nat): set<nat> {
    set id | id in comments && comments[id].movieId == movieId
  }

  // The constraints of the schema and the AUTO_INCREMENT counters.

  /** `email VARCHAR(255) UNIQUE`. */
  predicate EmailsUnique(users: map<nat, User>) {
    forall a, b | a in users && b in users && users[a].email == users[b].email :: a == b
  }

  /** `titulo VARCHAR(255) UNIQUE`. */
  predicate TitlesUnique(movies: map<nat, Movie>) {
    forall a, b | a in movies && b in movies && movies[a].titulo == movies[b].titulo :: a == b
  }

  /** `FOREIGN KEY (user_id) REFERENCES users(id)` on movies. */
  predicate OwnersExist(s: Store) {
    forall m | m in s.movies :: s.movies[m].userId in s.users
  }

  /** Both foreign keys of comments. */
  predicate CommentsReferenced(s: Store) {
    forall c | c in s.comments :: s.comments[c].movieId in s.movies && s.comments[c].userId in s.users
  }

  /** No comment was written by the owner of the movie it is on. */
  predicate NoSelfComments(s: Store) {
    forall c | c in s.comments && s.comments[c].movieId in s.movies ::
      s.comments[c].userId != s.movies[s.comments[c].movieId].userId
  }

  /** Every id in use was handed out before the counter's current value. */
  predicate IdsBelowCounters(s: Store) {
    && 1 <= s.nextUserId && 1 <= s.nextMovieId && 1 <= s.nextCommentId
    && (forall id | id in s.users :: 1 <= id < s.nextUserId)
    && (forall id | id in s.movies :: 1 <= id < s.nextMovieId)
    && (forall id | id in s.comments :: 1 <= id < s.nextCommentId)
  }

  /** What every reachable database satisfies. */
  predicate Valid(s: Store) {
    && EmailsUnique(s.users)
    && TitlesUnique(s.movies)
    && OwnersExist(s)
    && CommentsReferenced(s)
    && NoSelfComments(s)
    && IdsBelowCounters(s)
  }

  lemma EmptyValid()
    ensures Valid(Empty)
  {
  }

  /** Under the UNIQUE constraint an email names at most one user. */
  lemma EmailsUniqueIffSingletons(users: map<nat, User>)
    ensures EmailsUnique(users) <==>
              forall id | id in users :: UsersWithEmail(users, users[id].email) == {id}
  {
    if forall id | id in users :: UsersWithEmail(users, users[id].email) == {id} {
      forall a, b | a in users && b in users && users[a].email == users[b].email
        ensures a == b
      {
        assert b in UsersWithEmail(users, users[a].email);
      }
    }
  }

  /** `DELETE FROM movies WHERE id = %s` with `ON DELETE CASCADE` on
      `comments.movie_id`: the movie goes and so does every comment on it. */
  function DeleteMovieCascade(s: Store, movieId: nat): (r: Store)
    ensures r.users == s.users && r.movies.Keys == s.movies.Keys - {movieId}
    ensures forall m | m in r.movies :: r.movies[m] == s.movies[m]
    ensures r.comments.Keys == s.comments.Keys - CommentsOf(s.comments, movieId)
    ensures forall c | c in r.comments :: r.comments[c] == s.comments[c]
    ensures CommentsOf(r.comments, movieId) == {}
    ensures r.nextUserId == s.nextUserId && r.nextMovieId == s.nextMovieId
            && r.nextCommentId == s.nextCommentId
  {
    s.(movies := map m | m in s.movies && m != movieId :: s.movies[m],
       comments := map c | c in s.comments && s.comments[c].movieId != movieId :: s.comments[c])
  }
}
