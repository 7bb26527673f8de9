/**
 * The catalogue and review entities, with the field validators and unique
 * constraints of their models stated as predicates over tables. A table is a
 * map from primary key to row.
 */
module Reviews {
  import opened Wrappers
  import opened Users

  datatype Genre = Genre(name: string, slug: string)

  datatype Category = Category(name: string, slug: string)

  /** `category` is a nullable foreign key to a Category. */
  datatype Title = Title(name: string, year: int, description: string, category: Option<Id>)

  /** A row of the genre/title link table. */
  datatype GenreTitle = GenreTitle(genre: Id, title: Id)

  datatype Review = Review(text: string, author: Id, score: int, title: Id)

  datatype Comment = Comment(text: string, author: Id, review: Id)

  const MinScore := 1
  const MaxScore := 10

  /** The score column's two validators. */
  predicate ScoreInRange(score: int)
  {
    MinScore <= score <= MaxScore
  }

  /** The year column: a non-negative integer no later than `maxYear`. */
  predicate YearInRange(year: int, maxYear: int)
  {
    0 <= year <= maxYear
  }

  ghost predicate UniqueGenreSlugs(genres: map<Id, Genre>)
  {
    forall a, b :: a in genres && b in genres && genres[a].slug == genres[b].slug ==> a == b
  }

  ghost predicate UniqueCategorySlugs(categories: map<Id, Category>)
  {
    forall a, b :: a in categories && b in categories && categories[a].slug == categories[b].slug ==> a == b
  }

  /** Some genre has this slug. */
  predicate GenreSlugExists(genres: map<Id, Genre>, slug: string)
  {
    exists g :: g in genres && genres[g].slug == slug
  }

  /** Some category has this slug. */
  predicate CategorySlugExists(categories: map<Id, Category>, slug: string)
  {
    exists c :: c in categories && categories[c].slug == slug
  }

  /** The constraint named unique_author_title. */
  ghost predicate UniqueAuthorTitle(reviews: map<Id, Review>)
  {
    forall a, b ::
      a in reviews && b in reviews &&
      reviews[a].author == reviews[b].author && reviews[a].title == reviews[b].title
      ==> a == b
  }

  /** The `filter(author=..., title=...).exists()` query. */
  predicate ReviewExists(reviews: map<Id, Review>, author: Id, title: Id)
  {
    exists r :: r in reviews && reviews[r].author == author && reviews[r].title == title
  }

  /**
   * Adding a review for a pair that has none keeps the pair unique, and
   * afterwards the pair has a review.
   */
  lemma AddReviewKeepsUnique(reviews: map<Id, Review>, id: Id, r: Review)
    requires UniqueAuthorTitle(reviews)
    requires id !in reviews
    requires !ReviewExists(reviews, r.author, r.title)
    ensures UniqueAuthorTitle(reviews[id := r])
    ensures ReviewExists(reviews[id := r], r.author, r.title)
  {
    var rs := reviews[id := r];
    forall a, b | a in rs && b in rs && rs[a].author == rs[b].author && rs[a].title == rs[b].title
      ensures a == b
    {
      if a != id && b != id {
        assert reviews[a] == rs[a] && reviews[b] == rs[b];
      }
    }
    assert rs[id] == r;
  }

  /**
   * Whether a pair has a review depends only on that pair's reviews: adding a
   * review by another author, or on another title, changes nothing.
   */
  lemma ReviewExistsIsPerPair(reviews: map<Id, Review>, id: Id, r: Review, author: Id, title: Id)
    requires id !in reviews
    requires r.author != author || r.title != title
    ensures ReviewExists(reviews[id := r], author, title) == ReviewExists(reviews, author, title)
  {
    var rs := reviews[id := r];
    if ReviewExists(rs, author, title) {
      var k :| k in rs && rs[k].author == author && rs[k].title == title;
      assert k != id && reviews[k] == rs[k];
    }
    if ReviewExists(reviews, author, title) {
      var k :| k in reviews && reviews[k].author == author && reviews[k].title == title;
      assert k in rs && rs[k] == reviews[k];
    }
  }
}
