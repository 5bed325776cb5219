/**
 * The entity schema of models.py: the `users` and `movies` tables, the
 * foreign key from a movie to its owner, and the two views of that relation
 * (`User.movies`, `Movie.user`) with their cascade rules.
 *
 * Every column the schema declares NOT NULL is a plain value here, so no
 * row can hold a null. A rating is a `real` on which nothing is computed.
 */
module Models {
  import opened Wrappers

  /** A row of `users`. */
  datatype User = User(id: int, name: string)

  /** A row of `movies`; `userId` is the `user_id` column. */
  datatype Movie = Movie(id: int, name: string, director: string, year: int, rating: real, userId: int)

  /** The stored state: each table maps a primary key to its row. */
  datatype Tables = Tables(users: map<int, User>, movies: map<int, Movie>)

  /** The ids of a list of users. */
  function UserIds(us: seq<User>): (ids: set<int>)
    ensures |ids| <= |us|
  {
    if us == [] then {} else UserIds(us[..|us| - 1]) + {us[|us| - 1].id}
  }

  /** The ids of a list of movies. */
  function MovieIds(ms: seq<Movie>): (ids: set<int>)
    ensures |ids| <= |ms|
  {
    if ms == [] then {} else MovieIds(ms[..|ms| - 1]) + {ms[|ms| - 1].id}
  }

  lemma UserIdsAppend(us: seq<User>, u: User)
    ensures UserIds(us + [u]) == UserIds(us) + {u.id}
  {
    assert (us + [u])[..|us|] == us;
  }

  lemma MovieIdsAppend(ms: seq<Movie>, m: Movie)
    ensures MovieIds(ms + [m]) == MovieIds(ms) + {m.id}
  {
    assert (ms + [m])[..|ms|] == ms;
  }

  /** Where in the list a movie id comes from. */
  lemma {:induction false} MovieIdsIndex(ms: seq<Movie>, id: int) returns (i: nat)
    requires id in MovieIds(ms)
    ensures i < |ms| && ms[i].id == id
  {
    if ms[|ms| - 1].id == id {
      i := |ms| - 1;
    } else {
      i := MovieIdsIndex(ms[..|ms| - 1], id);
    }
  }

  /** Every row is stored under its own primary key. */
  ghost predicate WellKeyed(t: Tables) {
    && (forall id :: id in t.users ==> t.users[id].id == id)
    && (forall id :: id in t.movies ==> t.movies[id].id == id)
  }

  /** The foreign key `movies.user_id -> users.id` holds for every movie. */
  ghost predicate ReferentialIntegrity(t: Tables) {
    forall id :: id in t.movies ==> t.movies[id].userId in t.users
  }

  /** `User.movies`: the ids of the movies whose `user_id` is `userId`. */
  function UserMovies(t: Tables, userId: int): (ids: set<int>) {
    set id | id in t.movies && t.movies[id].userId == userId
  }

  /** `Movie.user`: the owner of a stored movie, when its `user_id` names a stored user. */
  function MovieUser(t: Tables, movieId: int): (owner: Option<User>)
    requires movieId in t.movies
  {
    var owner := t.movies[movieId].userId;
    if owner in t.users then Some(t.users[owner]) else None
  }

  /**
   * `User.movies` and `Movie.user` are one relation seen from its two ends:
   * a movie is in a stored user's collection exactly when that user is the
   * movie's owner.
   */
  lemma BackPopulates(t: Tables, userId: int, movieId: int)
    requires WellKeyed(t) && userId in t.users
    ensures movieId in UserMovies(t, userId) <==> movieId in t.movies && MovieUser(t, movieId) == Some(t.users[userId])
  {
  }

  /**
   * Deleting a user through the session: cascade "all" deletes the movies
   * in the user's collection with it.
   */
  function DeleteUser(t: Tables, userId: int): (r: Tables)
    ensures r.users.Keys == t.users.Keys - {userId}
    ensures r.movies.Keys == t.movies.Keys - UserMovies(t, userId)
  {
    Tables(t.users - {userId}, map id | id in t.movies && t.movies[id].userId != userId :: t.movies[id])
  }

  /** After the cascade no movie refers to the deleted user, and the foreign key still holds. */
  lemma DeleteUserCascades(t: Tables, userId: int)
    requires ReferentialIntegrity(t)
    ensures UserMovies(DeleteUser(t, userId), userId) == {}
    ensures ReferentialIntegrity(DeleteUser(t, userId))
  {
  }

  /** The cascade touches no other user's movies. */
  lemma DeleteUserSparesOthers(t: Tables, userId: int, other: int)
    requires other != userId
    ensures UserMovies(DeleteUser(t, userId), other) == UserMovies(t, other)
    ensures forall id :: id in DeleteUser(t, userId).movies ==> DeleteUser(t, userId).movies[id] == t.movies[id]
  {
  }

  /** Without the cascade, deleting a user who owns a movie would leave a dangling foreign key. */
  lemma DeleteWithoutCascadeDangles(t: Tables, userId: int, movieId: int)
    requires movieId in UserMovies(t, userId)
    ensures !ReferentialIntegrity(Tables(t.users - {userId}, t.movies))
  {
    assert t.movies[movieId].userId !in t.users - {userId};
  }

  /**
   * Removing a movie from its owner's collection: delete-orphan deletes the
   * movie row; a movie that is not in the collection is left alone.
   */
  function DetachMovie(t: Tables, userId: int, movieId: int): (r: Tables)
    ensures r.users == t.users
  {
    if movieId in UserMovies(t, userId) then Tables(t.users, t.movies - {movieId}) else t
  }

  /** A detached movie is gone from the tables and from the collection; nothing else changes. */
  lemma DetachDeletesOrphan(t: Tables, userId: int, movieId: int)
    requires ReferentialIntegrity(t)
    ensures var r := DetachMovie(t, userId, movieId);
      && movieId !in UserMovies(r, userId)
      && UserMovies(r, userId) == UserMovies(t, userId) - {movieId}
      && (movieId in UserMovies(t, userId) <==> movieId !in r.movies && movieId in t.movies)
      && ReferentialIntegrity(r)
  {
  }
}
