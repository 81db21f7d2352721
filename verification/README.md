# CinePedia request handlers in Dafny

A model of the request-handling core of `app.py`, a Flask application where
users register, log in, file movies (`peliculas`) and comment on other users'
movies. With Flask, pymysql and werkzeug taken away, each route is a pure
function over three tables and an optional session user. The tables are
`users`, `movies` and `comments`, each a map from row id to row. A handler
returns an outcome tag and the database (or the session) afterwards.

Modules, leaf first:

- `Optional` (`optional.dfy`): `Option`, for the session and for form checks.
- `Text` (`text.dfy`): Python's `str.isspace`, `str.strip` and
  `str.split(sep)` on a one-character separator; `strip` is pinned down by its
  contract, and `split` comes with its round trips through `join`.
- `Validation` (`validation.dfy`): the register, movie and comment form checks,
  including the email check that looks only between the first and the second `@`.
- `Db` (`db.dfy`): the rows, the store with its AUTO_INCREMENT counters, the
  `ON DELETE CASCADE` from movies to comments, and the invariant `Valid`. `Valid`
  holds the schema's UNIQUE and FOREIGN KEY constraints. It also holds one rule
  the schema does not enforce: `comentar_pelicula` keeps any user from commenting
  on their own movie (app.py:503-508).
- `Handlers` (`handlers.dfy`): `register`, `login`, `logout`, `nueva_pelicula`,
  `editar_pelicula`, `borrar_pelicula`, `comentar_pelicula`,
  `borrar_comentario`, and the login guards of `cine_dashboard` and `ver_pelicula`.
- `Invariants` (`invariants.dfy`): every write preserves `Valid`, and the
  properties that span more than one call.
- `App` (`app.dfy`): requests, a single step, and runs of many steps.
- `Scenario` (`scenario.dfy`): a two-user walk-through from an empty database.

Modelling decisions:

- A form field the request lacks (`None`) and an empty one are both falsy to
  the handlers. Both are the empty string here.
- `generate_password_hash` salts at random, so its result comes in as a
  parameter of `Register`. `check_password_hash` is the parameter `checkHash`
  of `Login`, a function the model knows nothing about.
- An insert whose `user_id` names no user breaks the foreign key, and the
  database refuses it. `nueva_pelicula` catches that error and `comentar_pelicula`
  does not. In both cases nothing is written, and the outcome here is
  `StoreError`. This happens only when the session names a user who does not
  exist, and `App.Step` proves it never happens once the session came from a login.
- Notes on the code:
  - The release date is checked for presence only (app.py:288-292). Unlike the other three fields, it has no 3-character minimum.
  - `ver_pelicula` reports a missing movie when the join with its owner finds no user (app.py:339-351).
  - The comment listing leaves out comments whose author the join cannot find (app.py:354-360).

## Model

| member | source | states |
|---|---|---|
| `Text.Strip` | app.py:486 | `contenido.strip()` is a slice of the input that neither starts nor ends with whitespace; everything cut on either side is whitespace |
| `Text.StripEmptyIffAllSpace` | app.py:486 | `len(s.strip()) == 0` exactly when every character of `s` is whitespace |
| `Text.Split` | app.py:162 | `email.split('@')` yields at least one piece and no piece contains `@`; there are two or more pieces iff `@` occurs; the first piece is the prefix up to the first `@` |
| `Text.SplitCount` | app.py:162 | `email.split('@')` has one piece more than the email has `@` characters |
| `Text.JoinSplit` | app.py:162 | joining the pieces of a split with the separator gives back the original string |
| `Text.SplitJoin` | app.py:162 | splitting the join of separator-free pieces gives back those pieces |
| `Validation.ValidEmail` | app.py:162 | the email check `'@' in email and '.' in email.split('@')[1]` holds exactly when there is a first `@` followed by a `.` with no second `@` in between |
| `Validation.ValidEmailIffShape` | app.py:162 | the check's expression, with `Text.Split` for `str.split`, equals the positional shape, in both directions |
| `Validation.ValidEmailAccepts` | app.py:162 | `ana@mail.com`, `a@b.c@d` and even `@.` pass the email check |
| `Validation.ValidEmailRejectsSecondAt` | app.py:162 | `a@b@c.d` is rejected: the dot after the second `@` is not seen |
| `Validation.ValidEmailRejectsDotBeforeAt` | app.py:162 | `a.b@c` is rejected: a dot before the `@` does not count |
| `Validation.CheckRegistration` | app.py:149-164 | registration is refused iff some field is empty, a name has fewer than 2 chars, the passwords differ or the email check fails; each reason is reported exactly when its check fails and every earlier check passes, in the order empty field, name length, password match, email |
| `Validation.CheckMovie` | app.py:287-294 | a movie form is refused iff some field is empty or the title, director or synopsis has fewer than 3 chars (the date is not length-checked); an empty field is reported before a short one |
| `Validation.BlankComment` | app.py:486 | `not contenido or len(contenido.strip()) == 0` holds exactly when every character of the comment is whitespace (the empty comment included) |
| `Db.EmailsUniqueIffSingletons` | app.py:72-78 | the UNIQUE email constraint holds iff each user's email names that user alone |
| `Db.EmptyValid` | app.py:70-106 | the freshly created tables satisfy `Valid`: the schema's constraints and the no-comment-on-one's-own-movie rule |
| `Db.DeleteMovieCascade` | app.py:96-106 | deleting a movie removes exactly that movie and the comments that reference it; every other row and the users are untouched |
| `Handlers.Register` | app.py:142-196 | invalid form iff a check fails; conflict iff the form is fine and the email is taken; otherwise exactly one new user row with that email and hash, nothing else changed; every failure leaves the store unchanged |
| `Handlers.Login` | app.py:206-230 | an empty email or password is refused; success iff a user with that email exists and the password verifies against its hash; on success the session holds that user's id, email and nombre; every failure keeps the session |
| `Handlers.CreateMovie` | app.py:277-324 | not logged in, invalid form, title taken and foreign-key refusal are each characterised iff; on success exactly one movie owned by the session user is added and nothing else changes |
| `Handlers.EditMovie` | app.py:373-433 | not found iff the movie is absent; forbidden iff another user owns it; then the same form checks; conflict iff another movie has the title; on success only the four editable fields of that movie change, its id and owner are kept |
| `Handlers.DeleteMovie` | app.py:444-472 | not found and forbidden as for edit, with the store unchanged; on success the movie and exactly its comments are gone, every other row is kept |
| `Handlers.AddComment` | app.py:479-519 | blank comment, missing movie, commenting on one's own movie and foreign-key refusal are each characterised iff, checked in source order; on success exactly one comment by the session user is added |
| `Handlers.DeleteComment` | app.py:526-555 | not found iff the comment is absent; forbidden iff someone else wrote it; on success exactly that comment is removed |
| `Handlers.Logout` | app.py:235-244 | logout succeeds whatever the session held and leaves no session user; `Invariants.LogoutLocksOut` gives what follows from that |
| `Handlers.Dashboard` | app.py:248-270 | not logged in iff there is no session; otherwise lists exactly the movies whose owner the join finds |
| `Handlers.ViewMovie` | app.py:328-366 | not logged in iff there is no session; not found iff the movie or its owner is missing; otherwise lists exactly that movie's comments whose author the join finds |
| `Invariants.RegisterPreservesValid` | app.py:166-186 | registration keeps `Valid`, emails unique in particular |
| `Invariants.RegisterAddsExactlyOne` | app.py:177-186 | after a successful registration exactly one user has that email and there is one user more; a refused one changes nobody with that email |
| `Invariants.RegisterTwiceConflicts` | app.py:168-175 | registering the same email again is a conflict that leaves the store unchanged |
| `Invariants.LoginFailureIndistinguishable` | app.py:222-230 | an unknown email and a wrong password give the identical reply, with the session unchanged |
| `Invariants.RegisterThenLogin` | app.py:216-227 | after registering, logging in with that email and password succeeds as the new user, given the hash check accepts its own hash |
| `Invariants.LoginEstablishesSession` | app.py:222-225 | a session produced by login names an existing user |
| `Invariants.LogoutLocksOut` | app.py:235-244 | after logout every login-guarded route answers not-logged-in, writes nothing and lists nothing |
| `Invariants.DashboardShowsAll` | app.py:250-265 | in a valid database the dashboard of a logged-in user shows every movie, as the docstring promises: the join with the owner loses none |
| `Invariants.ViewMovieUnderValid` | app.py:337-361 | in a valid database a logged-in user's movie page is not found exactly when the movie is absent, and otherwise lists every comment on the movie |
| `Invariants.CreateMoviePreservesValid` | app.py:300-319 | creating a movie keeps `Valid`, titles unique in particular |
| `Invariants.CreateMovieAddsExactlyOne` | app.py:310-319 | after a successful create exactly one movie has that title, there is one movie more, and the session user owns it |
| `Invariants.CreateMovieTwiceConflicts` | app.py:300-308 | filing a title that was just filed is a conflict with the store unchanged, whoever tries |
| `Invariants.EditMoviePreservesValid` | app.py:410-424 | editing keeps `Valid`, including title uniqueness and no comment by a movie's owner |
| `Invariants.EditMovieKeepsOwnTitle` | app.py:410-414 | the owner may resubmit the movie's own title |
| `Invariants.DeleteMoviePreservesValid` | app.py:454-467 | deleting a movie keeps `Valid` |
| `Invariants.DeleteMovieLeavesNoComments` | app.py:466-467 | after a delete no comment references the movie and every remaining comment references an existing movie |
| `Invariants.AddCommentPreservesValid` | app.py:503-514 | adding a comment keeps `Valid`, no comment by the movie's owner in particular |
| `Invariants.AddCommentAddsExactlyOne` | app.py:510-514 | a successful comment adds one row, and it joins that movie's comments |
| `Invariants.DeleteCommentPreservesValid` | app.py:536-550 | deleting a comment keeps `Valid` |
| `Invariants.DeleteCommentRemovesExactlyOne` | app.py:548-550 | a successful delete removes that comment and only it |
| `Invariants.NoStoreErrorWithSession` | app.py:310-324 | with a session naming an existing user, no movie or comment insert is refused by a foreign key |
| `App.Step` | app.py:137-555 | any request keeps the store valid and never removes a user; a session that names a user keeps doing so, and then no foreign-key refusal occurs |
| `App.Run` | app.py:137-555 | a sequence of requests yields one outcome each and keeps every constraint; from a logged-in-or-anonymous valid world no outcome is a foreign-key refusal |
| `App.FreshRunsStayValid` | app.py:48-111 | from freshly created tables, any sequence of requests keeps the store valid and never hits a foreign-key refusal |
| `Scenario.Walkthrough` | app.py:142-519 | from fresh tables, two users with different emails register and log in; the first files a movie, the second comments on it; the owner's own comment and the commenter's delete are forbidden; the owner's delete succeeds and leaves no comment on the movie |
| `Scenario.AnaAndBetoQualify` | app.py:149-164 | two concrete registrations (`ana@mail.com`, `beto@mail.com`), a concrete movie form and two ordinary comments pass every form check, so they meet the walk-through's requirements |
| `Scenario.AnaAndBetoWalkthrough` | app.py:142-519 | the walk-through played by Ana, Beto and "Dune": both register and log in, Ana files the movie, Beto comments, Ana's own comment and Beto's delete are forbidden, and Ana's delete leaves no comment on the movie |
| `Scenario.DuneTwice` | app.py:300-308 | filing the title of an existing movie again is a conflict with the store unchanged, whoever is logged in |

## Left out

- Flask routing, `render_template`, the text of the `flash` messages and the redirects: UI plumbing, represented by the outcome tag alone.
- The GET forms of `register`, `login`, `nueva_pelicula` and `editar_pelicula`: they only render a page and write nothing.
- `index`: a read-only user lookup for the home page that writes nothing.
- pymysql connections, cursors and the execution of `init_db`'s DDL: I/O. The schema's uniqueness, foreign keys and cascade are kept in `Db`.
- The generic `except` branches and `IntegrityError` paths, other than the foreign-key refusal modelled as `StoreError`. In the source, under MySQL's default strict mode, these paths fire when a column rejects a value. That happens for a `fecha_estreno` that is not a `DATE` (app.py:87), for an `email`, `nombre`, `apellido`, `titulo` or `director` longer than its `VARCHAR(255)` (app.py:74-76, 85-86), and for a `sinopsis` or `contenido` over the 65,535 bytes of a `TEXT` column (app.py:88, 99). The password is stored only as its hash, so its length never matters. This model does not type or bound the columns, so none of these paths fires here. The four lines below name what that changes.
- Handlers.CreateMovie: answers `Ok` and inserts the row when `fecha_estreno` is not a valid date, `titulo` or `director` is over 255 characters, or `sinopsis` is over 65,535 bytes. The source's INSERT (app.py:311) raises on such a row. The raise is caught at app.py:320 and nothing is written.
- Handlers.EditMovie: answers `Ok` and rewrites the row for the same inputs. The source's UPDATE (app.py:419) raises on them. The raise is caught at app.py:429 and nothing is written.
- Handlers.Register: answers `Ok` and inserts the user when `email`, `nombre` or `apellido` is over 255 characters. In the source the INSERT raises a data error that `except pymysql.err.IntegrityError` (app.py:187) does not catch. The request ends in a server error and nothing is written.
- Handlers.AddComment: answers `Ok` and adds the row when `contenido` is over 65,535 bytes. In the source the INSERT (app.py:510-513) raises an error that nothing catches. The request ends in a server error and nothing is written.
- werkzeug's `generate_password_hash` and `check_password_hash`: a foreign crypto library, so the hash is a parameter and the check an uninterpreted function.
- `created_at` timestamps and the `ORDER BY created_at DESC` listings: the database assigns the timestamps, and the listings are sets of ids here.
- `date_spanish_filter`: presentation only, and it depends on `datetime.strptime`.
- The `os.urandom` secret-key fallback and the hard-coded database configuration: configuration.
- The race between the uniqueness SELECT and the INSERT: a concurrency concern, and the model is sequential.
- MySQL's default utf8mb4 collation compares case- and accent-insensitively. The model compares emails and titles exactly.
- The `VARCHAR(255)` and `TEXT` limits, the `DATE` parsing of `fecha_estreno`, and the 32-bit `INT` range of ids are not modelled. The release date is an uninterpreted string.
- Deleting a user, and the cascade from users to movies and comments: no route deletes a user.
- AUTO_INCREMENT values a failed insert may consume: ids are opaque, and the model only needs fresh ones.
- Handlers.Login: requires that emails be unique. The schema's UNIQUE constraint (app.py:74) guarantees this of every database, and the model needs it to pick the single matching user.
