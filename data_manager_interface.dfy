/**
 * The abstract DataManagerInterface of datamanager/data_manager_interface.py.
 *
 * Each abstract operation's documented promise is a predicate over the
 * tables before and after the call, its arguments and its result; the
 * SQLite data manager's methods are proved against these predicates, and the
 * lemmas below derive what a caller can rely on from the promises alone.
 * `parse_year`, which has no implementation anywhere, is the function its
 * documentation describes.
 */
module DataManagerInterface {
  import opened Wrappers
  import opened Models

  // ----- parse_year -----

  predicate IsDigit(c: char) {
    '0' <= c <= '9'
  }

  /** Four digits in a row start at index `i` of `s`. */
  predicate YearAt(s: string, i: int) {
    0 <= i && i + 4 <= |s| && IsDigit(s[i]) && IsDigit(s[i + 1]) && IsDigit(s[i + 2]) && IsDigit(s[i + 3])
  }

  function DigitValue(c: char): (d: nat)
    requires IsDigit(c)
    ensures d < 10
  {
    c as int - '0' as int
  }

  /** The number the four digits at `i` spell. */
  function YearValue(s: string, i: int): (year: nat)
    requires YearAt(s, i)
    ensures year <= 9999
  {
    1000 * DigitValue(s[i]) + 100 * DigitValue(s[i + 1]) + 10 * DigitValue(s[i + 2]) + DigitValue(s[i + 3])
  }

  /** The first index at or after `from` where four digits in a row start. */
  function FirstYearFrom(raw: string, from: nat): (r: Option<nat>)
    requires from <= |raw|
    ensures r.Some? ==> from <= r.value && YearAt(raw, r.value)
    ensures forall i :: from <= i && (r.None? || i < r.value) ==> !YearAt(raw, i)
    decreases |raw| - from
  {
    if YearAt(raw, from) then Some(from)
    else if from == |raw| then None
    else FirstYearFrom(raw, from + 1)
  }

  /**
   * parse_year: the first run of four digits in `raw` as a number, or 0 when
   * `raw` holds no four digits in a row.
   */
  function ParseYear(raw: string): (year: nat)
    ensures year <= 9999
    ensures (forall i :: !YearAt(raw, i)) ==> year == 0
  {
    match FirstYearFrom(raw, 0)
    case Some(i) => YearValue(raw, i)
    case None => 0
  }

  /** When four digits start at `i` and nowhere before, they are the year. */
  lemma ParseYearIsFirstYear(raw: string, i: int)
    requires YearAt(raw, i) && forall j :: 0 <= j < i ==> !YearAt(raw, j)
    ensures ParseYear(raw) == YearValue(raw, i)
  {
    var first := FirstYearFrom(raw, 0);
    assert first.Some? && first.value == i;
  }

  /** The documented examples: a year range and an open range give their first year. */
  lemma ParseYearOfRanges()
    ensures ParseYear("2013\U{2013}2015") == 2013
    ensures ParseYear("2013\U{2013} ") == 2013
  {
    assert YearAt("2013\U{2013}2015", 0);
    assert YearAt("2013\U{2013} ", 0);
  }

  /** Text without four digits in a row gives 0. */
  lemma ParseYearWithoutYear()
    ensures ParseYear("") == 0
    ensures ParseYear("N/A") == 0
    ensures ParseYear("199") == 0
  {
  }

  // ----- The documented promises of the operations -----

  /** get_all_users: every stored user, each exactly once. */
  ghost predicate AllUsersContract(t: Tables, r: seq<User>) {
    && |r| == |t.users|
    && UserIds(r) == t.users.Keys
    && forall i :: 0 <= i < |r| ==> r[i].id in t.users && t.users[r[i].id] == r[i]
  }

  /** get_user: the user with that id, or None when there is none. */
  ghost predicate GetUserContract(t: Tables, userId: int, r: Option<User>) {
    match r
    case None => userId !in t.users
    case Some(u) => userId in t.users && t.users[userId] == u
  }

  /** add_user: one new user with the given name under an unused id; nothing else changes. */
  ghost predicate AddUserContract(before: Tables, after: Tables, name: string, r: User) {
    && r.name == name
    && r.id !in before.users
    && after.users == before.users[r.id := r]
    && after.movies == before.movies
  }

  /** get_user_movies: every stored movie whose user_id is the given id, each exactly once. */
  ghost predicate UserMoviesContract(t: Tables, userId: int, r: seq<Movie>) {
    && |r| == |UserMovies(t, userId)|
    && MovieIds(r) == UserMovies(t, userId)
    && forall i :: 0 <= i < |r| ==> r[i].id in t.movies && t.movies[r[i].id] == r[i]
  }

  /** get_movie as documented: the movie with that id, or None when there is none. */
  ghost predicate GetMovieContract(t: Tables, movieId: int, r: Option<Movie>) {
    match r
    case None => movieId !in t.movies
    case Some(m) => movieId in t.movies && t.movies[movieId] == m
  }

  /** add_movie: one new movie with exactly the given columns under an unused id; nothing else changes. */
  ghost predicate AddMovieContract(before: Tables, after: Tables, userId: int, name: string,
                                   director: string, year: int, rating: real, r: Movie) {
    && r == Movie(r.id, name, director, year, rating, userId)
    && r.id !in before.movies
    && after.movies == before.movies[r.id := r]
    && after.users == before.users
  }

  /**
   * update_movie: None, and no write, when there is no such movie; otherwise
   * the updated movie, as stored afterwards.
   */
  ghost predicate UpdateMovieContract(before: Tables, after: Tables, movieId: int, r: Option<Movie>) {
    && (r.None? <==> movieId !in before.movies)
    && (r.None? ==> after == before)
    && (r.Some? ==> r.value.id in after.movies && after.movies[r.value.id] == r.value && after.users == before.users)
  }

  /** delete_movie: true exactly when the movie existed; afterwards it does not. */
  ghost predicate DeleteMovieContract(before: Tables, after: Tables, movieId: int, r: bool) {
    && r == (movieId in before.movies)
    && after.movies == before.movies - {movieId}
    && after.users == before.users
  }

  // ----- Instantiation -----

  /** The operations the interface declares abstract. */
  const AbstractOperations: set<string> :=
    {"parse_year", "get_all_users", "get_user", "add_user", "get_user_movies",
     "get_movie", "add_movie", "update_movie", "delete_movie"}

  /** Calling a class derived from the interface: a new object, or the TypeError Python raises. */
  datatype Instantiation = Created | TypeError(undefined: set<string>)

  /**
   * Python's rule for a class derived from an abstract base: it can be
   * instantiated only when it defines every abstract operation; otherwise
   * the call raises TypeError naming the operations still abstract.
   */
  function Instantiate(defined: set<string>): (r: Instantiation)
    ensures r.Created? <==> AbstractOperations <= defined
    ensures r.TypeError? ==> forall op :: op in r.undefined <==> op in AbstractOperations && op !in defined
  {
    if AbstractOperations <= defined then Created else TypeError(AbstractOperations - defined)
  }

  // ----- What callers can rely on -----

  /** A user just added is found by its id, with the name it was given. */
  lemma AddedUserIsFound(s0: Tables, s1: Tables, name: string, u: User, r: Option<User>)
    requires AddUserContract(s0, s1, name, u)
    requires GetUserContract(s1, u.id, r)
    ensures r == Some(u) && u.name == name
  {
  }

  /** Deleting the same movie twice: the second call finds nothing and changes nothing. */
  lemma SecondDeleteFindsNothing(s0: Tables, s1: Tables, s2: Tables, movieId: int, r1: bool, r2: bool)
    requires DeleteMovieContract(s0, s1, movieId, r1)
    requires DeleteMovieContract(s1, s2, movieId, r2)
    ensures !r2 && s2 == s1
  {
    assert s2.movies == s1.movies;
  }

  /**
   * Listing the movies of an id that names no user gives an empty list, not
   * an error, as long as no movie refers to a missing user.
   */
  lemma UnknownUserOwnsNothing(t: Tables, userId: int, r: seq<Movie>)
    requires ReferentialIntegrity(t) && userId !in t.users
    requires UserMoviesContract(t, userId, r)
    ensures r == []
  {
    assert UserMovies(t, userId) == {};
  }

  /** A movie just added is listed among its owner's movies. */
  lemma AddedMovieIsListed(s0: Tables, s1: Tables, userId: int, name: string, director: string,
                           year: int, rating: real, m: Movie, r: seq<Movie>)
    requires AddMovieContract(s0, s1, userId, name, director, year, rating, m)
    requires UserMoviesContract(s1, userId, r)
    ensures m in r
  {
    assert m.id in UserMovies(s1, userId);
    var i := MovieIdsIndex(r, m.id);
  }

  /**
   * A user who owned no movies owns exactly the one just added: listing them
   * gives that movie alone, with the name and director it was given.
   */
  lemma FirstMovieOfUser(s0: Tables, s1: Tables, userId: int, name: string, director: string,
                         year: int, rating: real, m: Movie, r: seq<Movie>)
    requires AddMovieContract(s0, s1, userId, name, director, year, rating, m)
    requires UserMovies(s0, userId) == {}
    requires UserMoviesContract(s1, userId, r)
    ensures r == [m] && r[0].name == name && r[0].director == director
  {
    assert UserMovies(s1, userId) == {m.id};
    assert |r| == 1;
    var i := MovieIdsIndex(r, m.id);
  }
}
