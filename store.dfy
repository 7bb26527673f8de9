/**
 * The database the views read and write: one map-valued field per table,
 * keyed by primary key, and a counter that hands out fresh keys. `Valid()`
 * gathers the models' unique constraints, field validators and foreign keys;
 * the delete methods carry out the models' CASCADE and SET_NULL rules.
 */
module Store {
  import opened Wrappers
  import opened Users
  import opened Reviews

  /** Every role is one of the declared choices. */
  ghost predicate RolesValid(users: map<Id, User>)
  {
    forall u :: u in users ==> users[u].role in Choices
  }

  ghost predicate TitlesValid(titles: map<Id, Title>, categories: map<Id, Category>, maxYear: int)
  {
    forall t :: t in titles ==>
      YearInRange(titles[t].year, maxYear) &&
      (titles[t].category.Some? ==> titles[t].category.value in categories)
  }

  ghost predicate LinksValid(links: map<Id, GenreTitle>, genres: map<Id, Genre>, titles: map<Id, Title>)
  {
    forall l :: l in links ==> links[l].genre in genres && links[l].title in titles
  }

  ghost predicate ReviewsValid(reviews: map<Id, Review>, users: map<Id, User>, titles: map<Id, Title>)
  {
    UniqueAuthorTitle(reviews) &&
    forall r :: r in reviews ==>
      reviews[r].author in users && reviews[r].title in titles && ScoreInRange(reviews[r].score)
  }

  ghost predicate CommentsValid(comments: map<Id, Comment>, users: map<Id, User>, reviews: map<Id, Review>)
  {
    forall c :: c in comments ==> comments[c].author in users && comments[c].review in reviews
  }

  /** `small` is `big` with some rows removed. */
  ghost predicate SubTable<T>(small: map<Id, T>, big: map<Id, T>)
  {
    forall k :: k in small ==> k in big && small[k] == big[k]
  }

  /** The reviews that survive deleting user `u`. */
  function ReviewsNotBy(reviews: map<Id, Review>, u: Id): (kept: map<Id, Review>)
    ensures SubTable(kept, reviews)
    ensures forall r :: r in kept <==> r in reviews && reviews[r].author != u
  {
    map r | r in reviews && reviews[r].author != u :: reviews[r]
  }

  /** The reviews that survive deleting title `t`. */
  function ReviewsNotOn(reviews: map<Id, Review>, t: Id): (kept: map<Id, Review>)
    ensures SubTable(kept, reviews)
    ensures forall r :: r in kept <==> r in reviews && reviews[r].title != t
  {
    map r | r in reviews && reviews[r].title != t :: reviews[r]
  }

  /** The comments that survive deleting user `u`, before the review cascade. */
  function CommentsNotBy(comments: map<Id, Comment>, u: Id): (kept: map<Id, Comment>)
    ensures SubTable(kept, comments)
    ensures forall c :: c in kept <==> c in comments && comments[c].author != u
  {
    map c | c in comments && comments[c].author != u :: comments[c]
  }

  /** The comments whose review is still in `reviews`. */
  function CommentsOn(comments: map<Id, Comment>, reviews: map<Id, Review>): (kept: map<Id, Comment>)
    ensures SubTable(kept, comments)
    ensures forall c :: c in kept <==> c in comments && comments[c].review in reviews
  {
    map c | c in comments && comments[c].review in reviews :: comments[c]
  }

  /** The genre links that survive deleting title `t`. */
  function LinksNotOn(links: map<Id, GenreTitle>, t: Id): (kept: map<Id, GenreTitle>)
    ensures SubTable(kept, links)
    ensures forall l :: l in kept <==> l in links && links[l].title != t
  {
    map l | l in links && links[l].title != t :: links[l]
  }

  /** The genre links that survive deleting genre `g`. */
  function LinksNotOf(links: map<Id, GenreTitle>, g: Id): (kept: map<Id, GenreTitle>)
    ensures SubTable(kept, links)
    ensures forall l :: l in kept <==> l in links && links[l].genre != g
  {
    map l | l in links && links[l].genre != g :: links[l]
  }

  /** The titles after deleting category `c`: its titles lose their category. */
  function Uncategorize(titles: map<Id, Title>, c: Id): (after: map<Id, Title>)
    ensures after.Keys == titles.Keys
    ensures forall t :: t in after ==>
      after[t] == if titles[t].category == Some(c) then titles[t].(category := None) else titles[t]
  {
    map t | t in titles :: if titles[t].category == Some(c) then titles[t].(category := None) else titles[t]
  }

  lemma SubTableKeepsUniqueAuthorTitle(small: map<Id, Review>, big: map<Id, Review>)
    requires SubTable(small, big) && UniqueAuthorTitle(big)
    ensures UniqueAuthorTitle(small)
  {
  }

  /** Removing rows whose referenced key is gone keeps every remaining reference alive. */
  lemma ReviewsAfterDelete(small: map<Id, Review>, big: map<Id, Review>, users: map<Id, User>, titles: map<Id, Title>)
    requires SubTable(small, big) && UniqueAuthorTitle(big)
    requires forall r :: r in small ==> small[r].author in users && small[r].title in titles
    requires forall r :: r in big ==> ScoreInRange(big[r].score)
    ensures ReviewsValid(small, users, titles)
  {
    SubTableKeepsUniqueAuthorTitle(small, big);
  }

  ghost predicate KeysBelow<T>(table: map<Id, T>, next: nat)
  {
    forall k :: k in table ==> k < next
  }

  /** The constraints every committed state of the database meets. */
  ghost predicate TablesValid(
    users: map<Id, User>, genres: map<Id, Genre>, categories: map<Id, Category>,
    titles: map<Id, Title>, links: map<Id, GenreTitle>, reviews: map<Id, Review>,
    comments: map<Id, Comment>, next: nat, yearAtImport: int)
    ensures TablesValid(users, genres, categories, titles, links, reviews, comments, next, yearAtImport) ==>
      forall r :: r in reviews ==> ScoreInRange(reviews[r].score)
    ensures TablesValid(users, genres, categories, titles, links, reviews, comments, next, yearAtImport) ==>
      forall t :: t in titles ==> YearInRange(titles[t].year, yearAtImport)
    ensures TablesValid(users, genres, categories, titles, links, reviews, comments, next, yearAtImport) ==>
      forall c :: c in comments ==> comments[c].review in reviews && reviews[comments[c].review].title in titles
  {
    && UniqueUsernames(users)
    && RolesValid(users)
    && UniqueGenreSlugs(genres)
    && UniqueCategorySlugs(categories)
    && TitlesValid(titles, categories, yearAtImport)
    && LinksValid(links, genres, titles)
    && ReviewsValid(reviews, users, titles)
    && CommentsValid(comments, users, reviews)
    && KeysBelow(users, next) && KeysBelow(genres, next) && KeysBelow(categories, next)
    && KeysBelow(titles, next) && KeysBelow(links, next) && KeysBelow(reviews, next)
    && KeysBelow(comments, next)
  }

  /** The state after the user cascade is valid again. */
  lemma DeleteUserKeepsValid(
    users: map<Id, User>, genres: map<Id, Genre>, categories: map<Id, Category>,
    titles: map<Id, Title>, links: map<Id, GenreTitle>, reviews: map<Id, Review>,
    comments: map<Id, Comment>, next: nat, yearAtImport: int, u: Id)
    requires TablesValid(users, genres, categories, titles, links, reviews, comments, next, yearAtImport)
    ensures var reviews' := ReviewsNotBy(reviews, u);
      TablesValid(users - {u}, genres, categories, titles, links,
        reviews', CommentsOn(CommentsNotBy(comments, u), reviews'), next, yearAtImport)
  {
    var users' := users - {u};
    var reviews' := ReviewsNotBy(reviews, u);
    var comments' := CommentsOn(CommentsNotBy(comments, u), reviews');
    assert UniqueUsernames(users') && RolesValid(users');
    ReviewsAfterDelete(reviews', reviews, users', titles);
    CommentsAfterUserDelete(comments, users, reviews, u);
    assert KeysBelow(users', next) && KeysBelow(reviews', next) && KeysBelow(comments', next);
  }

  /** The comments left by the user cascade point at remaining users and reviews. */
  lemma CommentsAfterUserDelete(comments: map<Id, Comment>, users: map<Id, User>, reviews: map<Id, Review>, u: Id)
    requires CommentsValid(comments, users, reviews)
    ensures CommentsValid(CommentsOn(CommentsNotBy(comments, u), ReviewsNotBy(reviews, u)), users - {u}, ReviewsNotBy(reviews, u))
  {
  }

  /** The state after the title cascade is valid again. */
  lemma DeleteTitleKeepsValid(
    users: map<Id, User>, genres: map<Id, Genre>, categories: map<Id, Category>,
    titles: map<Id, Title>, links: map<Id, GenreTitle>, reviews: map<Id, Review>,
    comments: map<Id, Comment>, next: nat, yearAtImport: int, t: Id)
    requires TablesValid(users, genres, categories, titles, links, reviews, comments, next, yearAtImport)
    ensures var reviews' := ReviewsNotOn(reviews, t);
      TablesValid(users, genres, categories, titles - {t}, LinksNotOn(links, t),
        reviews', CommentsOn(comments, reviews'), next, yearAtImport)
  {
    ReviewsAfterDelete(ReviewsNotOn(reviews, t), reviews, users, titles - {t});
  }

  /** The state after the genre cascade is valid again. */
  lemma DeleteGenreKeepsValid(
    users: map<Id, User>, genres: map<Id, Genre>, categories: map<Id, Category>,
    titles: map<Id, Title>, links: map<Id, GenreTitle>, reviews: map<Id, Review>,
    comments: map<Id, Comment>, next: nat, yearAtImport: int, g: Id)
    requires TablesValid(users, genres, categories, titles, links, reviews, comments, next, yearAtImport)
    ensures TablesValid(users, genres - {g}, categories, titles, LinksNotOf(links, g),
      reviews, comments, next, yearAtImport)
  {
  }

  /** The state after SET_NULL on a category's titles is valid again. */
  lemma DeleteCategoryKeepsValid(
    users: map<Id, User>, genres: map<Id, Genre>, categories: map<Id, Category>,
    titles: map<Id, Title>, links: map<Id, GenreTitle>, reviews: map<Id, Review>,
    comments: map<Id, Comment>, next: nat, yearAtImport: int, c: Id)
    requires TablesValid(users, genres, categories, titles, links, reviews, comments, next, yearAtImport)
    ensures TablesValid(users, genres, categories - {c}, Uncategorize(titles, c), links,
      reviews, comments, next, yearAtImport)
  {
  }

  class Database {
    var users: map<Id, User>
    var genres: map<Id, Genre>
    var categories: map<Id, Category>
    var titles: map<Id, Title>
    var genreTitles: map<Id, GenreTitle>
    var reviews: map<Id, Review>
    var comments: map<Id, Comment>
    /** The next primary key to hand out. */
    var nextId: nat
    /** The calendar year when the models were loaded: the year column's upper bound. */
    const yearAtImport: int

    ghost predicate Valid()
      reads this
    {
      TablesValid(users, genres, categories, titles, genreTitles, reviews, comments, nextId, yearAtImport)
    }

    constructor (yearAtImport: int)
      ensures Valid()
      ensures this.yearAtImport == yearAtImport
      ensures users == map[] && genres == map[] && categories == map[] && titles == map[]
      ensures genreTitles == map[] && reviews == map[] && comments == map[]
    {
      users, genres, categories, titles := map[], map[], map[], map[];
      genreTitles, reviews, comments := map[], map[], map[];
      nextId := 0;
      this.yearAtImport := yearAtImport;
    }

    /** Inserts a user row under a fresh key. */
    method CreateUser(u: User) returns (id: Id)
      requires Valid()
      requires u.role in Choices
      requires forall k :: k in users ==> users[k].username != u.username
      modifies this
      ensures Valid()
      ensures id == old(nextId) && id !in old(users) && users == old(users)[id := u]
      ensures genres == old(genres) && categories == old(categories) && titles == old(titles)
      ensures genreTitles == old(genreTitles) && reviews == old(reviews) && comments == old(comments)
    {
      id := nextId;
      users := users[id := u];
      nextId := nextId + 1;
    }

    /** Overwrites an existing user row (`save()` on a loaded instance). */
    method SaveUser(id: Id, u: User)
      requires Valid()
      requires id in users && u.role in Choices
      requires forall k :: k in users && k != id ==> users[k].username != u.username
      modifies this
      ensures Valid()
      ensures users == old(users)[id := u] && users.Keys == old(users).Keys
      ensures genres == old(genres) && categories == old(categories) && titles == old(titles)
      ensures genreTitles == old(genreTitles) && reviews == old(reviews) && comments == old(comments)
    {
      users := users[id := u];
    }

    /** Inserts a review row; the caller has checked the score and the pair. */
    method CreateReview(r: Review) returns (id: Id)
      requires Valid()
      requires r.author in users && r.title in titles && ScoreInRange(r.score)
      requires !ReviewExists(reviews, r.author, r.title)
      modifies this
      ensures Valid()
      ensures id !in old(reviews) && reviews == old(reviews)[id := r]
      ensures users == old(users) && genres == old(genres) && categories == old(categories)
      ensures titles == old(titles) && genreTitles == old(genreTitles) && comments == old(comments)
    {
      id := nextId;
      AddReviewKeepsUnique(reviews, id, r);
      reviews := reviews[id := r];
      nextId := nextId + 1;
    }

    /** Inserts a comment row. */
    method CreateComment(c: Comment) returns (id: Id)
      requires Valid()
      requires c.author in users && c.review in reviews
      modifies this
      ensures Valid()
      ensures id !in old(comments) && comments == old(comments)[id := c]
      ensures users == old(users) && genres == old(genres) && categories == old(categories)
      ensures titles == old(titles) && genreTitles == old(genreTitles) && reviews == old(reviews)
    {
      id := nextId;
      comments := comments[id := c];
      nextId := nextId + 1;
    }

    /**
     * Deletes a user. Reviews and comments the user wrote go with it
     * (CASCADE on author), and so do other users' comments on those reviews
     * (CASCADE on review).
     */
    method DeleteUser(u: Id)
      requires Valid()
      modifies this
      ensures Valid()
      ensures users == old(users) - {u}
      ensures forall r :: r in reviews <==> r in old(reviews) && old(reviews)[r].author != u
      ensures forall c :: c in comments <==>
        c in old(comments) && old(comments)[c].author != u && old(comments)[c].review in reviews
      ensures SubTable(reviews, old(reviews)) && SubTable(comments, old(comments))
      ensures reviews == ReviewsNotBy(old(reviews), u)
      ensures comments == CommentsOn(CommentsNotBy(old(comments), u), reviews)
      ensures genres == old(genres) && categories == old(categories)
      ensures titles == old(titles) && genreTitles == old(genreTitles) && nextId == old(nextId)
    {
      DeleteUserKeepsValid(users, genres, categories, titles, genreTitles, reviews, comments, nextId, yearAtImport, u);
      var reviews' := ReviewsNotBy(reviews, u);
      users, reviews, comments := users - {u}, reviews', CommentsOn(CommentsNotBy(comments, u), reviews');
    }

    /** Deletes a title with its genre links, its reviews and their comments. */
    method DeleteTitle(t: Id)
      requires Valid()
      modifies this
      ensures Valid()
      ensures titles == old(titles) - {t}
      ensures forall l :: l in genreTitles <==> l in old(genreTitles) && old(genreTitles)[l].title != t
      ensures forall r :: r in reviews <==> r in old(reviews) && old(reviews)[r].title != t
      ensures forall c :: c in comments <==> c in old(comments) && old(comments)[c].review in reviews
      ensures SubTable(genreTitles, old(genreTitles)) && SubTable(reviews, old(reviews))
      ensures SubTable(comments, old(comments))
      ensures users == old(users) && genres == old(genres) && categories == old(categories)
      ensures nextId == old(nextId)
    {
      DeleteTitleKeepsValid(users, genres, categories, titles, genreTitles, reviews, comments, nextId, yearAtImport, t);
      var reviews' := ReviewsNotOn(reviews, t);
      titles, genreTitles, reviews, comments := titles - {t}, LinksNotOn(genreTitles, t), reviews', CommentsOn(comments, reviews');
    }

    /** Deletes a genre with its title links; the titles stay. */
    method DeleteGenre(g: Id)
      requires Valid()
      modifies this
      ensures Valid()
      ensures genres == old(genres) - {g}
      ensures forall l :: l in genreTitles <==> l in old(genreTitles) && old(genreTitles)[l].genre != g
      ensures SubTable(genreTitles, old(genreTitles))
      ensures users == old(users) && categories == old(categories) && titles == old(titles)
      ensures reviews == old(reviews) && comments == old(comments) && nextId == old(nextId)
    {
      DeleteGenreKeepsValid(users, genres, categories, titles, genreTitles, reviews, comments, nextId, yearAtImport, g);
      genres, genreTitles := genres - {g}, LinksNotOf(genreTitles, g);
    }

    /**
     * Deletes a category. Its titles stay, with a null category and every
     * other column as it was (SET_NULL).
     */
    method DeleteCategory(c: Id)
      requires Valid()
      modifies this
      ensures Valid()
      ensures categories == old(categories) - {c}
      ensures titles.Keys == old(titles).Keys
      ensures forall t :: t in titles && old(titles)[t].category == Some(c) ==>
        titles[t] == old(titles)[t].(category := None)
      ensures forall t :: t in titles && old(titles)[t].category != Some(c) ==>
        titles[t] == old(titles)[t]
      ensures users == old(users) && genres == old(genres) && genreTitles == old(genreTitles)
      ensures reviews == old(reviews) && comments == old(comments) && nextId == old(nextId)
    {
      DeleteCategoryKeepsValid(users, genres, categories, titles, genreTitles, reviews, comments, nextId, yearAtImport, c);
      categories, titles := categories - {c}, Uncategorize(titles, c);
    }
  }
}
