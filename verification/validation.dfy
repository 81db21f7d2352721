/** The checks the register, movie and comment forms go through before any
    table is read. A form field the request does not carry and an empty one are
    both falsy to the handlers, so both are the empty string here. */
module Validation {
  import opened Optional
  import opened Text

  /** Why a form was turned away, one per distinct message the handlers flash. */
  datatype Reason =
    | MissingField      // some required field is empty
    | TooShort          // a field is below its minimum length
    | PasswordMismatch  // password and its confirmation differ
    | BadEmail          // the email fails the `@` / `.` check
    | EmptyComment      // the comment is empty or only whitespace

  datatype RegisterForm = RegisterForm(
    nombre: string, apellido: string, password: string, passwordConfirm: string, email: string)

  datatype MovieForm = MovieForm(
    titulo: string, director: string, fechaEstreno: string, sinopsis: string)

  /** `'@' in email and '.' in email.split('@')[1]`: only the piece between
      the first `@` and the next one (or the end) is searched for a dot. */
  function ValidEmail(email: string): (r: bool)
    ensures r <==> EmailShape(email)
  {
    ValidEmailIffShape(email);
    '@' in email && '.' in Split(email, '@')[1]
  }

  /** The same condition said by positions: there is a first `@` at `i` and a
      dot at some `j` after it with no `@` in between. */
  ghost predicate EmailShape(e: string) {
    exists i, j :: 0 <= i < j < |e| && e[i] == '@' && e[j] == '.'
                   && '@' !in e[..i] && '@' !in e[i + 1..j]
  }

  /** The check's own expression against the positional shape. */
  lemma ValidEmailIffShape(e: string)
    ensures ('@' in e && '.' in Split(e, '@')[1]) <==> EmailShape(e)
  {
    if '@' in e && '.' in Split(e, '@')[1] {
      ShapeOfValidEmail(e);
    }
    if EmailShape(e) {
      var i, j :| 0 <= i < j < |e| && e[i] == '@' && e[j] == '.'
                  && '@' !in e[..i] && '@' !in e[i + 1..j];
      ValidEmailOfShape(e, i, j);
    }
  }

  lemma ShapeOfValidEmail(e: string)
    requires '@' in e && '.' in Split(e, '@')[1]
    ensures EmailShape(e)
  {
    FirstAtEndsFirstPiece(e);
    var i := |Split(e, '@')[0]|;
    SecondPieceAfterFirstAt(e, i);
    var rest := e[i + 1..];
    var seg := Split(rest, '@')[0];
    var d :| 0 <= d < |seg| && seg[d] == '.';
    DotOfFirstPiece(rest, d);
    var j := i + 1 + d;
    assert e[j] == rest[d];
    assert e[i + 1..j] == rest[..d];
  }

  /** The first piece stops at the first `@`, when there is one. */
  lemma FirstAtEndsFirstPiece(e: string)
    requires '@' in e
    ensures var i := |Split(e, '@')[0]|;
            i < |e| && e[i] == '@' && '@' !in e[..i]
  {
    SplitAfterFirst(e, '@');
  }

  /** A character of the first piece sits at the same place in the text,
      with no `@` before it. */
  lemma DotOfFirstPiece(rest: string, d: nat)
    requires d < |Split(rest, '@')[0]|
    ensures d < |rest| && rest[d] == Split(rest, '@')[0][d] && '@' !in rest[..d]
  {
    var seg := Split(rest, '@')[0];
    assert rest[..d] == seg[..d];
  }

  lemma ValidEmailOfShape(e: string, i: nat, j: nat)
    requires i < j < |e| && e[i] == '@' && e[j] == '.'
    requires '@' !in e[..i] && '@' !in e[i + 1..j]
    ensures '@' in e && '.' in Split(e, '@')[1]
  {
    assert e[i] == '@';
    DotInSecondPiece(e, i, j);
  }

  /** The dot at `j` lies in the piece that follows the first `@` at `i`. */
  lemma DotInSecondPiece(e: string, i: nat, j: nat)
    requires i < j < |e| && e[i] == '@' && e[j] == '.'
    requires '@' !in e[..i] && '@' !in e[i + 1..j]
    ensures |Split(e, '@')| >= 2 && '.' in Split(e, '@')[1]
  {
    var rest := e[i + 1..];
    SecondPieceAfterFirstAt(e, i);
    var d := j - i - 1;
    assert rest[d] == '.' && rest[..d] == e[i + 1..j];
    DotInFirstPiece(rest, d);
  }

  /** The second piece of the split is the first piece of what follows the first `@`. */
  lemma SecondPieceAfterFirstAt(e: string, i: nat)
    requires i < |e| && e[i] == '@' && '@' !in e[..i]
    ensures |Split(e, '@')| >= 2 && Split(e, '@')[1] == Split(e[i + 1..], '@')[0]
  {
    assert e == e[..i] + ['@'] + e[i + 1..];
    SplitCons(e[..i], e[i + 1..], '@');
  }

  /** A dot with no `@` before it lies in the first piece. */
  lemma DotInFirstPiece(rest: string, d: nat)
    requires d < |rest| && rest[d] == '.' && '@' !in rest[..d]
    ensures '.' in Split(rest, '@')[0]
  {
    NoAtThroughDot(rest, d);
    FirstPieceCovers(rest, '@', d + 1);
    assert Split(rest, '@')[0][d] == rest[d];
  }

  lemma NoAtThroughDot(rest: string, d: nat)
    requires d < |rest| && rest[d] == '.' && '@' !in rest[..d]
    ensures '@' !in rest[..d + 1]
  {
    assert rest[..d + 1] == rest[..d] + ['.'];
  }

  /** Addresses the check lets through, a dot-free local part with nothing
      before the `@` among them. */
  lemma ValidEmailAccepts()
    ensures ValidEmail("ana@mail.com")
    ensures ValidEmail("a@b.c@d")
    ensures ValidEmail("@.")
  {
    ValidEmailOfShape("ana@mail.com", 3, 8);
    ValidEmailOfShape("a@b.c@d", 1, 3);
    ValidEmailOfShape("@.", 0, 1);
  }

  /** A second `@` hides the dot behind it from the check. */
  lemma ValidEmailRejectsSecondAt()
    ensures !ValidEmail("a@b@c.d")
  {
    var e := "a@b@c.d";
    assert e == "a" + ['@'] + ("b" + ['@'] + "c.d");
    SplitCons("a", "b" + ['@'] + "c.d", '@');
    SplitCons("b", "c.d", '@');
    assert Split(e, '@')[1] == "b";
  }

  /** A dot before the `@` does not count. */
  lemma ValidEmailRejectsDotBeforeAt()
    ensures !ValidEmail("a.b@c")
  {
    var e := "a.b@c";
    assert e == "a.b" + ['@'] + "c";
    SplitCons("a.b", "c", '@');
    SplitNoSep("c", '@');
    assert Split(e, '@')[1] == "c";
  }

  /** Every check register() makes of its form, as one condition. */
  predicate RegistrationOk(f: RegisterForm) {
    && f.nombre != [] && f.apellido != [] && f.password != []
    && f.passwordConfirm != [] && f.email != []
    && |f.nombre| >= 2 && |f.apellido| >= 2
    && f.password == f.passwordConfirm
    && ValidEmail(f.email)
  }

  /** The first registration check that fails, in the order register() makes them. */
  function CheckRegistration(f: RegisterForm): (r: Option<Reason>)
    ensures r.None? <==> RegistrationOk(f)
    ensures r == Some(MissingField) <==>
              f.nombre == [] || f.apellido == [] || f.password == []
              || f.passwordConfirm == [] || f.email == []
    ensures r == Some(TooShort) <==>
              && f.nombre != [] && f.apellido != [] && f.password != []
              && f.passwordConfirm != [] && f.email != []
              && (|f.nombre| < 2 || |f.apellido| < 2)
    ensures r == Some(PasswordMismatch) <==>
              && f.nombre != [] && f.apellido != [] && f.password != []
              && f.passwordConfirm != [] && f.email != []
              && |f.nombre| >= 2 && |f.apellido| >= 2
              && f.password != f.passwordConfirm
    ensures r == Some(BadEmail) <==>
              && f.nombre != [] && f.apellido != [] && f.password != []
              && f.passwordConfirm != [] && f.email != []
              && |f.nombre| >= 2 && |f.apellido| >= 2
              && f.password == f.passwordConfirm
              && !ValidEmail(f.email)
    ensures r.Some? ==> r.value != EmptyComment
  {
    if f.nombre == [] || f.apellido == [] || f.password == [] || f.passwordConfirm == [] || f.email == [] then
      Some(MissingField)
    else if |f.nombre| < 2 || |f.apellido| < 2 then
      Some(TooShort)
    else if f.password != f.passwordConfirm then
      Some(PasswordMismatch)
    else if !ValidEmail(f.email) then
      Some(BadEmail)
    else
      None
  }

  /** Every check the create and edit handlers make of a movie form. The
      release date is only required to be present, not to be long. */
  predicate MovieFormOk(f: MovieForm) {
    && f.titulo != [] && f.director != [] && f.fechaEstreno != [] && f.sinopsis != []
    && |f.titulo| >= 3 && |f.director| >= 3 && |f.sinopsis| >= 3
  }

  /** The first movie-form check that fails, shared by create and edit. */
  function CheckMovie(f: MovieForm): (r: Option<Reason>)
    ensures r.None? <==> MovieFormOk(f)
    ensures r == Some(MissingField) <==>
              f.titulo == [] || f.director == [] || f.fechaEstreno == [] || f.sinopsis == []
    ensures r.Some? ==> r.value == MissingField || r.value == TooShort
    ensures r == Some(TooShort) ==> |f.titulo| < 3 || |f.director| < 3 || |f.sinopsis| < 3
  {
    if f.titulo == [] || f.director == [] || f.fechaEstreno == [] || f.sinopsis == [] then
      Some(MissingField)
    else if |f.titulo| < 3 || |f.director| < 3 || |f.sinopsis| < 3 then
      Some(TooShort)
    else
      None
  }

  /** `not contenido or len(contenido.strip()) == 0`: a comment is refused
      exactly when it has no character other than whitespace. */
  function BlankComment(contenido: string): (r: bool)
    ensures r <==> AllSpace(contenido)
  {
    StripEmptyIffAllSpace(contenido);
    contenido == [] || |Strip(contenido)| == 0
  }
}
