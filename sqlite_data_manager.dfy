/**
 * SQLiteDataManager of datamanager/sqlite_data_manager.py: the store behind
 * the web application, over the `users` and `movies` tables of the database
 * session. Each method works on the two tables as they stand after the
 * previous commit and is proved against the documented promise of its
 * DataManagerInterface operation.
 */
module SqliteDataManager {
  import opened Wrappers
  import opened Models
  import opened DataManagerInterface

  // ----- Primary keys -----

  lemma EmptyWhenNoMember(s: set<int>)
    ensures (forall x :: x !in s) ==> s == {}
  {
    if forall x :: x !in s {
      assert s == {};
    }
  }

  /**
   * SQLite's choice of a new INTEGER PRIMARY KEY when none is given: 1 for an
   * empty table, otherwise one more than the largest key in use.
   */
  ghost predicate RowIdRule(keys: set<int>, id: int) {
    && (keys == {} ==> id == 1)
    && (keys != {} ==> id - 1 in keys && forall k :: k in keys ==> k < id)
  }

  /** The key SQLite gives the next row inserted into a table holding `keys`. */
  method NextRowId(keys: set<int>) returns (id: int)
    ensures RowIdRule(keys, id)
    ensures id !in keys
  {
    var left, done := keys, {};
    var found := false;
    var top := 0;
    while left != {}
      invariant done + left == keys
      invariant found <==> done != {}
      invariant found ==> top in keys && forall k :: k in done ==> k <= top
      decreases |left|
    {
      EmptyWhenNoMember(left);
      var k :| k in left;
      if !found || top < k {
        top := k;
      }
      found := true;
      left, done := left - {k}, done + {k};
    }
    EmptyWhenNoMember(keys);
    id := if found then top + 1 else 1;
  }

  // ----- update_movie's keyword arguments -----

  /** A keyword argument's value, as the columns can hold it. */
  datatype Value = Text(s: string) | Integer(n: int) | Float(x: real)

  /** The attributes of a Movie that `update_movie` may set: its columns. */
  const Columns: set<string> := {"id", "name", "director", "year", "rating", "user_id"}

  /** A value of the column's own type. */
  predicate FitsColumn(key: string, v: Value) {
    if key == "name" || key == "director" then v.Text?
    else if key == "rating" then v.Float?
    else v.Integer?
  }

  /** Every argument that names a column carries a value of that column's type. */
  predicate WellTyped(fields: seq<(string, Value)>) {
    forall i :: 0 <= i < |fields| && fields[i].0 in Columns ==> FitsColumn(fields[i].0, fields[i].1)
  }

  /** Keyword arguments: no name is given twice. */
  predicate DistinctKeys(fields: seq<(string, Value)>) {
    forall i, j :: 0 <= i < j < |fields| ==> fields[i].0 != fields[j].0
  }

  function Keys(fields: seq<(string, Value)>): set<string> {
    set i | 0 <= i < |fields| :: fields[i].0
  }

  /** `getattr(movie, key)` for a column. */
  function Get(m: Movie, key: string): (v: Value)
    requires key in Columns
    ensures FitsColumn(key, v)
  {
    if key == "id" then Integer(m.id)
    else if key == "name" then Text(m.name)
    else if key == "director" then Text(m.director)
    else if key == "year" then Integer(m.year)
    else if key == "rating" then Float(m.rating)
    else Integer(m.userId)
  }

  /** `setattr(movie, key, v)` for a column: that column reads `v`, every other column is as it was. */
  function SetAttr(m: Movie, key: string, v: Value): (r: Movie)
    requires key in Columns && FitsColumn(key, v)
    ensures Get(r, key) == v
    ensures forall c :: c in Columns && c != key ==> Get(r, c) == Get(m, c)
  {
    match v
    case Text(s) => if key == "name" then m.(name := s) else m.(director := s)
    case Integer(n) => if key == "id" then m.(id := n) else if key == "year" then m.(year := n) else m.(userId := n)
    case Float(x) => m.(rating := x)
  }

  /** The movie after the `setattr` loop of `update_movie` over `fields`, in order. */
  function ApplyFields(m: Movie, fields: seq<(string, Value)>): (updated: Movie)
    requires WellTyped(fields)
  {
    if fields == [] then m
    else
      var prev := ApplyFields(m, fields[..|fields| - 1]);
      var (key, v) := fields[|fields| - 1];
      if key in Columns then SetAttr(prev, key, v) else prev
  }

  /**
   * What the loop does: every argument naming a column sets that column to
   * its value; a column no argument names keeps its value.
   */
  lemma {:induction false} UpdateSetsGivenColumns(m: Movie, fields: seq<(string, Value)>)
    requires WellTyped(fields) && DistinctKeys(fields)
    ensures forall i :: 0 <= i < |fields| && fields[i].0 in Columns ==> Get(ApplyFields(m, fields), fields[i].0) == fields[i].1
    ensures forall c :: c in Columns && c !in Keys(fields) ==> Get(ApplyFields(m, fields), c) == Get(m, c)
  {
    if fields != [] {
      var n := |fields| - 1;
      var prefix := fields[..n];
      assert forall i :: 0 <= i < n ==> prefix[i] == fields[i];
      assert Keys(fields) == Keys(prefix) + {fields[n].0};
      UpdateSetsGivenColumns(m, prefix);
    }
  }

  /** Arguments that name no column are ignored. */
  lemma {:induction false} UnknownKeysIgnored(m: Movie, fields: seq<(string, Value)>)
    requires forall i :: 0 <= i < |fields| ==> fields[i].0 !in Columns
    ensures WellTyped(fields) && ApplyFields(m, fields) == m
  {
    if fields != [] {
      UnknownKeysIgnored(m, fields[..|fields| - 1]);
    }
  }

  /** The documented example: `update_movie(1, name="New title", rating=9.0)`. */
  lemma UpdateExample(m: Movie)
    ensures var fields := [("name", Text("New title")), ("rating", Float(9.0))];
      WellTyped(fields) && ApplyFields(m, fields) == m.(name := "New title", rating := 9.0)
  {
    var fields := [("name", Text("New title")), ("rating", Float(9.0))];
    assert fields[..1] == [("name", Text("New title"))];
    assert fields[..1][..0] == [];
    var renamed := m.(name := "New title");
    assert ApplyFields(m, fields[..1]) == SetAttr(m, "name", Text("New title")) == renamed;
    assert ApplyFields(m, fields) == SetAttr(renamed, "rating", Float(9.0));
  }

  /** `all` lists, each once, exactly the users among `done`: what the query has produced after scanning `done`. */
  ghost predicate UsersListed(users: map<int, User>, done: set<int>, all: seq<User>) {
    && UserIds(all) == done
    && |all| == |done|
    && forall i :: 0 <= i < |all| ==> all[i].id in users && users[all[i].id] == all[i]
  }

  lemma UsersListedStep(users: map<int, User>, done: set<int>, all: seq<User>, id: int)
    requires forall k :: k in users ==> users[k].id == k
    requires UsersListed(users, done, all) && id in users && id !in done
    ensures UsersListed(users, done + {id}, all + [users[id]])
  {
    UserIdsAppend(all, users[id]);
    assert forall i :: 0 <= i < |all| ==> (all + [users[id]])[i] == all[i];
  }

  /** The ids among `ids` of the stored movies whose `user_id` is `userId`. */
  ghost function OwnedAmong(movies: map<int, Movie>, ids: set<int>, userId: int): set<int> {
    set id | id in ids && id in movies && movies[id].userId == userId
  }

  /**
   * `owned` lists, each once, exactly the movies among `done` whose
   * `user_id` is `userId`: what the query has produced after scanning `done`.
   */
  ghost predicate Listed(movies: map<int, Movie>, userId: int, done: set<int>, owned: seq<Movie>) {
    && MovieIds(owned) == OwnedAmong(movies, done, userId) <= done
    && |owned| == |MovieIds(owned)|
    && forall i :: 0 <= i < |owned| ==> owned[i].id in movies && movies[owned[i].id] == owned[i]
  }

  lemma ListedStep(movies: map<int, Movie>, userId: int, done: set<int>, owned: seq<Movie>, id: int)
    requires forall k :: k in movies ==> movies[k].id == k
    requires Listed(movies, userId, done, owned) && id in movies && id !in done
    ensures Listed(movies, userId, done + {id}, if movies[id].userId == userId then owned + [movies[id]] else owned)
  {
    OwnedAmongStep(movies, done, id, userId);
    if movies[id].userId == userId {
      ListedTake(movies, userId, done, owned, id);
    } else {
      assert OwnedAmong(movies, done + {id}, userId) == OwnedAmong(movies, done, userId);
    }
  }

  lemma ListedTake(movies: map<int, Movie>, userId: int, done: set<int>, owned: seq<Movie>, id: int)
    requires forall k :: k in movies ==> movies[k].id == k
    requires Listed(movies, userId, done, owned) && id in movies && id !in done
    requires OwnedAmong(movies, done + {id}, userId) == OwnedAmong(movies, done, userId) + {id}
    ensures Listed(movies, userId, done + {id}, owned + [movies[id]])
  {
    var m := movies[id];
    MovieIdsAppend(owned, m);
    assert id !in MovieIds(owned);
    assert forall i :: 0 <= i < |owned| ==> (owned + [m])[i] == owned[i];
  }

  lemma OwnedAmongStep(movies: map<int, Movie>, ids: set<int>, id: int, userId: int)
    requires id in movies
    ensures OwnedAmong(movies, ids + {id}, userId)
      == OwnedAmong(movies, ids, userId) + (if movies[id].userId == userId then {id} else {})
  {
  }

  lemma ListedAll(t: Tables, userId: int, owned: seq<Movie>)
    requires Listed(t.movies, userId, t.movies.Keys, owned)
    ensures UserMoviesContract(t, userId, owned)
  {
    assert OwnedAmong(t.movies, t.movies.Keys, userId) == UserMovies(t, userId);
  }

  /** The outcome of `update_movie`. */
  datatype UpdateOutcome =
    | NotFound             // no movie with that id: None
    | Updated(movie: Movie) // the movie as committed
    | IdTaken              // the new `id` is another movie's: the commit fails with IntegrityError

  function AsOptional(r: UpdateOutcome): Option<Movie> {
    if r.Updated? then Some(r.movie) else None
  }

  // ----- Construction -----

  /** The interface operations sqlite_data_manager.py defines on SQLiteDataManager. */
  const DefinedOperations: set<string> :=
    {"get_all_users", "get_user", "add_user", "get_user_movies",
     "get_movie", "add_movie", "update_movie", "delete_movie"}

  /**
   * As written, `SQLiteDataManager(...)` raises TypeError: the class never
   * defines `parse_year`, which the interface leaves abstract.
   */
  lemma ConstructionAsWritten()
    ensures Instantiate(DefinedOperations) == TypeError({"parse_year"})
  {
    assert AbstractOperations - DefinedOperations == {"parse_year"};
  }

  /** With `parse_year` defined, as `SQLiteDataManager.ParseYear` defines it, construction succeeds. */
  lemma ConstructionWithParseYear()
    ensures Instantiate(DefinedOperations + {"parse_year"}) == Created
  {
  }

  // ----- The data manager -----

  class SQLiteDataManager {
    const dbFileName: string
    var users: map<int, User>
    var movies: map<int, Movie>

    /** The committed contents of both tables. */
    function State(): Tables
      reads this
    {
      Tables(users, movies)
    }

    ghost predicate Valid()
      reads this
    {
      WellKeyed(State())
    }

    /** A manager over the database that holds `stored`. */
    constructor (dbFileName: string, stored: Tables)
      requires WellKeyed(stored)
      ensures this.dbFileName == dbFileName && State() == stored && Valid()
    {
      this.dbFileName := dbFileName;
      users := stored.users;
      movies := stored.movies;
    }

    /**
     * parse_year, which the class must define before it can be constructed:
     * the number the first four digits in a row spell, or 0 when there are none.
     */
    method ParseYear(rawYear: string) returns (year: nat)
      ensures (forall i :: !YearAt(rawYear, i)) ==> year == 0
      ensures forall i :: YearAt(rawYear, i) && (forall j :: 0 <= j < i ==> !YearAt(rawYear, j)) ==> year == YearValue(rawYear, i)
    {
      year := DataManagerInterface.ParseYear(rawYear);
      forall i | YearAt(rawYear, i) && (forall j :: 0 <= j < i ==> !YearAt(rawYear, j))
        ensures year == YearValue(rawYear, i)
      {
        ParseYearIsFirstYear(rawYear, i);
      }
    }

    /** get_all_users: every user, each once. */
    method GetAllUsers() returns (all: seq<User>)
      requires Valid()
      ensures AllUsersContract(State(), all)
    {
      all := [];
      var left, done := users.Keys, {};
      while left != {}
        invariant done + left == users.Keys && done !! left
        invariant UsersListed(users, done, all)
        decreases |left|
      {
        EmptyWhenNoMember(left);
        var id :| id in left;
        UsersListedStep(users, done, all, id);
        all := all + [users[id]];
        left, done := left - {id}, done + {id};
      }
      assert done == users.Keys;
    }

    /** get_user: the user stored under `userId`, or None. */
    method GetUser(userId: int) returns (r: Option<User>)
      ensures GetUserContract(State(), userId, r)
    {
      r := if userId in users then Some(users[userId]) else None;
    }

    /** add_user: inserts a user with the given name under the next row id and commits. */
    method AddUser(name: string) returns (user: User)
      requires Valid()
      modifies this
      ensures Valid()
      ensures AddUserContract(old(State()), State(), name, user)
      ensures RowIdRule(old(users).Keys, user.id)
      ensures ReferentialIntegrity(old(State())) ==> ReferentialIntegrity(State())
    {
      var id := NextRowId(users.Keys);
      user := User(id, name);
      users := users[id := user];
    }

    /** get_user_movies: every movie whose `user_id` is `userId`, each once; none for an unknown user. */
    method GetUserMovies(userId: int) returns (owned: seq<Movie>)
      requires Valid()
      ensures UserMoviesContract(State(), userId, owned)
    {
      owned := [];
      var left, done := movies.Keys, {};
      while left != {}
        invariant done + left == movies.Keys && done !! left
        invariant Listed(movies, userId, done, owned)
        decreases |left|
      {
        EmptyWhenNoMember(left);
        var id :| id in left;
        ListedStep(movies, userId, done, owned, id);
        if movies[id].userId == userId {
          owned := owned + [movies[id]];
        }
        left, done := left - {id}, done + {id};
      }
      assert done == movies.Keys;
      ListedAll(State(), userId, owned);
    }

    /**
     * get_movie as the code has it: it takes a user id and runs the same
     * query as get_user_movies, so it lists that user's movies.
     */
    method GetMovie(userId: int) returns (owned: seq<Movie>)
      requires Valid()
      ensures UserMoviesContract(State(), userId, owned)
    {
      owned := GetUserMovies(userId);
    }

    /** get_movie as the interface documents it: the movie stored under `movieId`, or None. */
    method GetMovieById(movieId: int) returns (r: Option<Movie>)
      ensures GetMovieContract(State(), movieId, r)
    {
      r := if movieId in movies then Some(movies[movieId]) else None;
    }

    /**
     * add_movie: inserts a movie with the given columns under the next row id
     * and commits. SQLite leaves foreign keys unchecked unless told otherwise,
     * so the owner need not exist; the foreign key keeps holding exactly when
     * it held before and the owner exists.
     */
    method AddMovie(userId: int, name: string, director: string, year: int, rating: real) returns (movie: Movie)
      requires Valid()
      modifies this
      ensures Valid()
      ensures AddMovieContract(old(State()), State(), userId, name, director, year, rating, movie)
      ensures RowIdRule(old(movies).Keys, movie.id)
      ensures ReferentialIntegrity(State()) <==> ReferentialIntegrity(old(State())) && userId in users
    {
      var id := NextRowId(movies.Keys);
      movie := Movie(id, name, director, year, rating, userId);
      movies := movies[id := movie];
      if ReferentialIntegrity(State()) {
        assert movies[id].userId in users;
        forall k | k in old(movies)
          ensures old(movies)[k].userId in users
        {
          assert movies[k] == old(movies)[k];
        }
      }
    }

    /**
     * update_movie: NotFound, with nothing written, when no movie has that
     * id; otherwise the `setattr` loop over the arguments that name a column,
     * then the commit. A new `id` moves the row, and fails as IdTaken, with
     * nothing written, when another movie already has it.
     */
    method UpdateMovie(movieId: int, fields: seq<(string, Value)>) returns (r: UpdateOutcome)
      requires Valid() && WellTyped(fields)
      modifies this
      ensures Valid()
      ensures r.NotFound? <==> movieId !in old(movies)
      ensures !r.Updated? ==> State() == old(State())
      ensures movieId in old(movies) ==>
        var m := ApplyFields(old(movies)[movieId], fields);
        if m.id != movieId && m.id in old(movies) then r == IdTaken
        else r == Updated(m) && movies == (old(movies) - {movieId})[m.id := m] && users == old(users)
      ensures !r.IdTaken? ==> UpdateMovieContract(old(State()), State(), movieId, AsOptional(r))
      ensures ReferentialIntegrity(old(State())) && (r.Updated? ==> r.movie.userId in users) ==> ReferentialIntegrity(State())
    {
      if movieId !in movies {
        return NotFound;
      }
      var movie := movies[movieId];
      for k := 0 to |fields|
        invariant movie == ApplyFields(movies[movieId], fields[..k])
      {
        assert fields[..k + 1][..k] == fields[..k];
        var (key, value) := fields[k];
        if key in Columns {
          movie := SetAttr(movie, key, value);
        }
      }
      assert fields[..|fields|] == fields;
      if movie.id != movieId && movie.id in movies {
        return IdTaken;
      }
      movies := (movies - {movieId})[movie.id := movie];
      r := Updated(movie);
    }

    /** delete_movie: true, after deleting it, when a movie has that id; false, with nothing written, otherwise. */
    method DeleteMovie(movieId: int) returns (deleted: bool)
      requires Valid()
      modifies this
      ensures Valid()
      ensures DeleteMovieContract(old(State()), State(), movieId, deleted)
      ensures ReferentialIntegrity(old(State())) ==> ReferentialIntegrity(State())
    {
      if movieId !in movies {
        assert movies - {movieId} == movies;
        return false;
      }
      movies := movies - {movieId};
      return true;
    }
  }

  /**
   * get_movie(7) is documented to return movie 7, but the code lists the
   * movies of user 7: with movie 7 owned by user 1 and no user 7, the code's
   * answer is empty while the documented answer is the movie.
   */
  lemma GetMovieListsOwnersMovies(r: seq<Movie>)
    ensures var t := Tables(map[1 := User(1, "Ada")], map[7 := Movie(7, "Heat", "Michael Mann", 1995, 8.3, 1)]);
      && (UserMoviesContract(t, 7, r) ==> r == [])
      && GetMovieContract(t, 7, Some(t.movies[7]))
      && !GetMovieContract(t, 7, None)
  {
    var t := Tables(map[1 := User(1, "Ada")], map[7 := Movie(7, "Heat", "Michael Mann", 1995, 8.3, 1)]);
    assert UserMovies(t, 7) == {};
  }
}
