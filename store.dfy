/** The relational store: the review tables, their constraints and `on_delete`
    rules, and the user table beside them. */
module Store {
  import opened Wrappers
  import opened Users
  import Queries

  type CategoryId = nat
  type GenreId = nat
  type TitleId = nat
  type ReviewId = nat
  type CommentId = nat

  const ReviewTextMaxLength: nat := 2000
  const MinScore: int := 1
  const MaxScore: int := 10
  /** The largest value a `PositiveSmallIntegerField` column holds. */
  const SmallIntMax: int := 32767

  /** A row of `Category` or of `Genre`: the two models declare the same columns. */
  datatype Tag = Tag(name: string, slug: string)

  /** A row of `Title`; `genres` is its many-to-many link to `Genre`. */
  datatype Title = Title(
    name: string,
    year: int,
    description: string,
    category: Option<CategoryId>,
    genres: set<GenreId>)

  /** A row of `Review`; `pubDate` is the `auto_now_add` timestamp. */
  datatype Review = Review(text: string, author: UserId, score: int, pubDate: int, title: TitleId)

  /** A row of `Comment`. */
  datatype Comment = Comment(author: UserId, review: ReviewId, text: string, pubDate: int)

  predicate KeysBelow<V>(m: map<nat, V>, n: nat)
  {
    forall k | k in m :: k < n
  }

  predicate SlugTaken(tags: map<nat, Tag>, slug: string)
  {
    exists id | id in tags :: tags[id].slug == slug
  }

  /** `slug` is declared `unique=True`. */
  predicate SlugsUnique(tags: map<nat, Tag>)
  {
    forall a, b {:trigger tags[a].slug, tags[b].slug} | a in tags && b in tags && a != b :: tags[a].slug != tags[b].slug
  }

  /** The `MinValueValidator(1)` and `MaxValueValidator(10)` of `score`. */
  predicate ScoreInRange(score: int)
  {
    MinScore <= score <= MaxScore
  }

  predicate ScoresInRange(reviews: map<ReviewId, Review>)
  {
    forall id | id in reviews :: ScoreInRange(reviews[id].score)
  }

  /** `Review.objects.filter(author=author, title=title).exists()`. */
  predicate ReviewExists(reviews: map<ReviewId, Review>, author: UserId, title: TitleId)
  {
    exists id | id in reviews :: reviews[id].author == author && reviews[id].title == title
  }

  /** The `unique_author_title` constraint. */
  predicate OneReviewPerAuthorTitle(reviews: map<ReviewId, Review>)
  {
    forall a, b {:trigger reviews[a].author, reviews[b].author} | a in reviews && b in reviews && a != b ::
      !(reviews[a].author == reviews[b].author && reviews[a].title == reviews[b].title)
  }

  /** Every foreign key of a title names a stored row (a category may be null). */
  predicate TitlesLinked(titles: map<TitleId, Title>, categories: map<CategoryId, Tag>, genres: map<GenreId, Tag>)
  {
    forall t | t in titles ::
      (titles[t].category.Some? ==> titles[t].category.value in categories)
      && titles[t].genres <= genres.Keys
  }

  predicate ReviewsLinked(reviews: map<ReviewId, Review>, users: map<UserId, User>, titles: map<TitleId, Title>)
  {
    forall r | r in reviews :: reviews[r].author in users && reviews[r].title in titles
  }

  predicate CommentsLinked(comments: map<CommentId, Comment>, users: map<UserId, User>, reviews: map<ReviewId, Review>)
  {
    forall c | c in comments :: comments[c].author in users && comments[c].review in reviews
  }

  function ReviewsOfTitle(reviews: map<ReviewId, Review>, t: TitleId): set<ReviewId>
  {
    set r | r in reviews && reviews[r].title == t
  }

  function ReviewsBy(reviews: map<ReviewId, Review>, u: UserId): set<ReviewId>
  {
    set r | r in reviews && reviews[r].author == u
  }

  function CommentsOnReviews(comments: map<CommentId, Comment>, rs: set<ReviewId>): set<CommentId>
  {
    set c | c in comments && comments[c].review in rs
  }

  function CommentsBy(comments: map<CommentId, Comment>, u: UserId): set<CommentId>
  {
    set c | c in comments && comments[c].author == u
  }

  /** `on_delete=SET_NULL` on `Title.category`: the titles after category `c` is deleted. */
  function ClearCategory(titles: map<TitleId, Title>, c: CategoryId): (r: map<TitleId, Title>)
    ensures r.Keys == titles.Keys
    ensures forall t | t in r :: r[t].category != Some(c)
    ensures forall t | t in r ::
      r[t] == if titles[t].category == Some(c) then titles[t].(category := None) else titles[t]
  {
    map t | t in titles :: if titles[t].category == Some(c) then titles[t].(category := None) else titles[t]
  }

  /** The titles after genre `g` is deleted: its many-to-many link rows go with it. */
  function DropGenre(titles: map<TitleId, Title>, g: GenreId): (r: map<TitleId, Title>)
    ensures r.Keys == titles.Keys
    ensures forall t | t in r :: g !in r[t].genres && r[t] == titles[t].(genres := titles[t].genres - {g})
  {
    map t | t in titles :: titles[t].(genres := titles[t].genres - {g})
  }

  function ReviewDates(reviews: map<ReviewId, Review>): map<nat, int>
  {
    map r | r in reviews :: reviews[r].pubDate
  }

  function CommentDates(comments: map<CommentId, Comment>): map<nat, int>
  {
    map c | c in comments :: comments[c].pubDate
  }

  predicate Distinct(s: seq<nat>)
  {
    forall i, j :: 0 <= i < j < |s| ==> s[i] != s[j]
  }

  /** `title.reviews.all()` under `ordering = ["-pub_date"]`: every review of
      the title, each once, newest first. */
  function ReviewListing(reviews: map<ReviewId, Review>, t: TitleId): (r: seq<ReviewId>)
    ensures forall id :: id in r <==> id in reviews && reviews[id].title == t
    ensures Distinct(r)
    ensures Queries.NewestFirst(r, ReviewDates(reviews))
  {
    var ids := Queries.Ascending(ReviewsOfTitle(reviews, t));
    assert Queries.Dated(ids, ReviewDates(reviews)) by {
      forall i | 0 <= i < |ids| ensures ids[i] in ReviewDates(reviews) {
        assert ids[i] in ids;
      }
    }
    var r := Queries.SortNewestFirst(ids, ReviewDates(reviews));
    SameElements(r, ids);
    PermutationKeepsDistinct(r, ids);
    r
  }

  /** `review.comments.all()` under `ordering = ["-pub_date"]`. */
  function CommentListing(comments: map<CommentId, Comment>, rv: ReviewId): (r: seq<CommentId>)
    ensures forall id :: id in r <==> id in comments && comments[id].review == rv
    ensures Distinct(r)
    ensures Queries.NewestFirst(r, CommentDates(comments))
  {
    var ids := Queries.Ascending(CommentsOnReviews(comments, {rv}));
    assert Queries.Dated(ids, CommentDates(comments)) by {
      forall i | 0 <= i < |ids| ensures ids[i] in CommentDates(comments) {
        assert ids[i] in ids;
      }
    }
    var r := Queries.SortNewestFirst(ids, CommentDates(comments));
    SameElements(r, ids);
    PermutationKeepsDistinct(r, ids);
    r
  }

  lemma SameElements(a: seq<nat>, b: seq<nat>)
    requires multiset(a) == multiset(b)
    ensures forall x :: x in a <==> x in b
  {
    forall x ensures x in a <==> x in b {
      assert x in a <==> x in multiset(a);
      assert x in b <==> x in multiset(b);
    }
  }

  /** A value occurs at most once in a sequence without repetitions. */
  lemma {:induction false} DistinctMultiplicity(s: seq<nat>, x: nat)
    requires Distinct(s)
    ensures multiset(s)[x] <= 1
  {
    if s != [] {
      assert s == [s[0]] + s[1..];
      assert Distinct(s[1..]) by {
        forall i, j | 0 <= i < j < |s[1..]| ensures s[1..][i] != s[1..][j] {
          assert s[1..][i] == s[i + 1] && s[1..][j] == s[j + 1];
        }
      }
      DistinctMultiplicity(s[1..], x);
      if x == s[0] {
        assert x !in s[1..] by {
          forall i | 0 <= i < |s[1..]| ensures s[1..][i] != x {
            assert s[1..][i] == s[i + 1];
          }
        }
        assert multiset(s[1..])[x] == 0;
      }
    }
  }

  lemma PermutationKeepsDistinct(a: seq<nat>, b: seq<nat>)
    requires multiset(a) == multiset(b) && Distinct(b)
    ensures Distinct(a)
  {
    forall i, j | 0 <= i < j < |a| ensures a[i] != a[j] {
      if a[i] == a[j] {
        var x := a[i];
        assert a == a[..i] + [a[i]] + a[i + 1..j] + [a[j]] + a[j + 1..];
        assert multiset(a)[x] >= 2;
        DistinctMultiplicity(b, x);
      }
    }
  }

  function Scores(reviews: map<ReviewId, Review>, ids: seq<ReviewId>): (r: seq<int>)
    requires forall i :: 0 <= i < |ids| ==> ids[i] in reviews
    ensures |r| == |ids|
    ensures forall i :: 0 <= i < |ids| ==> r[i] == reviews[ids[i]].score
  {
    if ids == [] then [] else [reviews[ids[0]].score] + Scores(reviews, ids[1..])
  }

  /** The `rating` annotation `Avg("reviews__score")` of a title. */
  function TitleRating(reviews: map<ReviewId, Review>, t: TitleId): Option<int>
  {
    var ids := ReviewListing(reviews, t);
    Queries.Mean(Scores(reviews, ids))
  }

  /** A title has a rating exactly when it has a review, and when every stored
      score is valid the rating lies in 1..10. */
  lemma TitleRatingInRange(reviews: map<ReviewId, Review>, t: TitleId)
    requires ScoresInRange(reviews)
    ensures TitleRating(reviews, t).None? <==> ReviewsOfTitle(reviews, t) == {}
    ensures TitleRating(reviews, t).Some? ==> MinScore <= TitleRating(reviews, t).value <= MaxScore
  {
    var ids := ReviewListing(reviews, t);
    var s := Scores(reviews, ids);
    if ReviewsOfTitle(reviews, t) != {} {
      var r :| r in ReviewsOfTitle(reviews, t);
      assert r in ids;
    }
    assert forall i :: 0 <= i < |s| ==> MinScore <= s[i] <= MaxScore by {
      forall i | 0 <= i < |s| ensures MinScore <= s[i] <= MaxScore {
        assert ids[i] in ids;
      }
    }
    Queries.MeanBounds(s, MinScore, MaxScore);
  }

  /** The six tables of the database, one map from primary key to row each. */
  datatype Tables = Tables(
    users: map<UserId, User>,
    categories: map<CategoryId, Tag>,
    genres: map<GenreId, Tag>,
    titles: map<TitleId, Title>,
    reviews: map<ReviewId, Review>,
    comments: map<CommentId, Comment>)

  /** Every constraint the database enforces: the unique and check constraints
      of each table and the foreign keys between them. */
  predicate Consistent(t: Tables)
  {
    && UserConstraints(t.users)
    && SlugsUnique(t.categories)
    && SlugsUnique(t.genres)
    && OneReviewPerAuthorTitle(t.reviews)
    && TitlesLinked(t.titles, t.categories, t.genres)
    && ReviewsLinked(t.reviews, t.users, t.titles)
    && CommentsLinked(t.comments, t.users, t.reviews)
  }

  // Writing one row. The database checks the written row against the rest of
  // its table and against the rows its foreign keys name; each `...Admissible`
  // predicate is that check, and each `Put...Iff` lemma shows it is exact.

  lemma {:induction false} PutUserIff(t: Tables, id: UserId, u: User)
    requires Consistent(t)
    ensures Consistent(t.(users := t.users[id := u])) <==> RowAdmissible(t.users, id, u)
  {
    RowAdmissibleIff(t.users, id, u);
  }

  /** The slug of `tag` written at key `id` clashes with no other row. */
  predicate TagAdmissible(tags: map<nat, Tag>, id: nat, tag: Tag)
  {
    forall other | other in tags && other != id :: tags[other].slug != tag.slug
  }

  lemma {:induction false} TagAdmissibleIff(tags: map<nat, Tag>, id: nat, tag: Tag)
    requires SlugsUnique(tags)
    ensures TagAdmissible(tags, id, tag) <==> SlugsUnique(tags[id := tag])
  {
    var after := tags[id := tag];
    if SlugsUnique(after) {
      forall other | other in tags && other != id ensures tags[other].slug != tag.slug {
        assert after[other].slug != after[id].slug;
      }
    }
  }

  /** For a new key, admissibility is that no row has the slug yet. */
  lemma FreshTagAdmissible(tags: map<nat, Tag>, id: nat, tag: Tag)
    requires id !in tags
    ensures TagAdmissible(tags, id, tag) <==> !SlugTaken(tags, tag.slug)
  {
    if !TagAdmissible(tags, id, tag) {
      var other :| other in tags && other != id && tags[other].slug == tag.slug;
    }
  }

  lemma {:induction false} PutCategoryIff(t: Tables, id: CategoryId, tag: Tag)
    requires Consistent(t)
    ensures Consistent(t.(categories := t.categories[id := tag])) <==> TagAdmissible(t.categories, id, tag)
  {
    TagAdmissibleIff(t.categories, id, tag);
  }

  lemma {:induction false} PutGenreIff(t: Tables, id: GenreId, tag: Tag)
    requires Consistent(t)
    ensures Consistent(t.(genres := t.genres[id := tag])) <==> TagAdmissible(t.genres, id, tag)
  {
    TagAdmissibleIff(t.genres, id, tag);
  }

  /** The category and the genres of a title row name stored rows. */
  predicate TitleAdmissible(t: Tables, x: Title)
  {
    (x.category.Some? ==> x.category.value in t.categories) && x.genres <= t.genres.Keys
  }

  lemma {:induction false} PutTitleIff(t: Tables, id: TitleId, x: Title)
    requires Consistent(t)
    ensures Consistent(t.(titles := t.titles[id := x])) <==> TitleAdmissible(t, x)
  {
    var after := t.(titles := t.titles[id := x]);
    if Consistent(after) {
      assert id in after.titles && after.titles[id] == x;
    }
  }

  /** A review row names a stored author and title, and no other review has
      the same author and title. */
  predicate ReviewAdmissible(t: Tables, id: ReviewId, rv: Review)
  {
    && rv.author in t.users
    && rv.title in t.titles
    && forall other | other in t.reviews && other != id ::
         !(t.reviews[other].author == rv.author && t.reviews[other].title == rv.title)
  }

  lemma {:induction false} PutReviewIff(t: Tables, id: ReviewId, rv: Review)
    requires Consistent(t)
    ensures Consistent(t.(reviews := t.reviews[id := rv])) <==> ReviewAdmissible(t, id, rv)
  {
    var after := t.reviews[id := rv];
    if Consistent(t.(reviews := after)) {
      assert id in after && after[id] == rv;
      forall other | other in t.reviews && other != id
        ensures !(t.reviews[other].author == rv.author && t.reviews[other].title == rv.title)
      {
        assert other in after && after[other] == t.reviews[other];
      }
    }
    if ReviewAdmissible(t, id, rv) {
      forall a, b | a in after && b in after && a != b
        ensures !(after[a].author == after[b].author && after[a].title == after[b].title)
      {
        if a != id && b != id {
          assert after[a] == t.reviews[a] && after[b] == t.reviews[b];
        }
      }
    }
  }

  /** For a new key, the uniqueness part of admissibility is that the author
      has not reviewed the title yet. */
  lemma FreshReviewAdmissible(t: Tables, id: ReviewId, rv: Review)
    requires id !in t.reviews
    ensures ReviewAdmissible(t, id, rv) <==>
      rv.author in t.users && rv.title in t.titles && !ReviewExists(t.reviews, rv.author, rv.title)
  {
    if ReviewExists(t.reviews, rv.author, rv.title) {
      var other :| other in t.reviews && t.reviews[other].author == rv.author && t.reviews[other].title == rv.title;
    }
  }

  /** Writing a review keeps every score in 1..10 exactly when its own score is. */
  lemma PutScoreIff(reviews: map<ReviewId, Review>, id: ReviewId, rv: Review)
    requires ScoresInRange(reviews)
    ensures ScoresInRange(reviews[id := rv]) <==> ScoreInRange(rv.score)
  {
    assert id in reviews[id := rv];
  }

  /** The author and the review of a comment row are stored rows. */
  predicate CommentAdmissible(t: Tables, c: Comment)
  {
    c.author in t.users && c.review in t.reviews
  }

  lemma {:induction false} PutCommentIff(t: Tables, id: CommentId, c: Comment)
    requires Consistent(t)
    ensures Consistent(t.(comments := t.comments[id := c])) <==> CommentAdmissible(t, c)
  {
    var after := t.(comments := t.comments[id := c]);
    if Consistent(after) {
      assert id in after.comments && after.comments[id] == c;
    }
  }

  // Deleting one row, with the `on_delete` rules that follow from it.

  /** A user's deletion: `CASCADE` on `Review.author` and `Comment.author`
      removes their reviews and comments, and `CASCADE` on `Comment.review`
      removes the comments on those reviews. */
  function RemoveUser(t: Tables, id: UserId): (r: Tables)
    ensures r.users == t.users - {id}
    ensures r.categories == t.categories && r.genres == t.genres && r.titles == t.titles
    ensures forall v :: v in r.reviews <==> v in t.reviews && t.reviews[v].author != id
    ensures forall v | v in r.reviews :: r.reviews[v] == t.reviews[v]
    ensures forall c :: c in r.comments <==>
      c in t.comments && t.comments[c].author != id && t.comments[c].review !in ReviewsBy(t.reviews, id)
    ensures forall c | c in r.comments :: r.comments[c] == t.comments[c]
  {
    var doomed := ReviewsBy(t.reviews, id);
    t.(users := t.users - {id},
       reviews := t.reviews - doomed,
       comments := t.comments - (CommentsBy(t.comments, id) + CommentsOnReviews(t.comments, doomed)))
  }

  lemma {:induction false} RemoveUserConsistent(t: Tables, id: UserId)
    requires Consistent(t)
    ensures Shrinks(t, RemoveUser(t, id))
    ensures Consistent(RemoveUser(t, id))
    ensures ScoresInRange(t.reviews) ==> ScoresInRange(RemoveUser(t, id).reviews)
    ensures id !in RemoveUser(t, id).users
  {
    var r := RemoveUser(t, id);
    forall c | c in r.comments ensures r.comments[c].author in r.users && r.comments[c].review in r.reviews {
      var v := t.comments[c].review;
      assert v in t.reviews && v !in ReviewsBy(t.reviews, id);
    }
  }

  /** A category's deletion: `SET_NULL` on `Title.category`. */
  function RemoveCategory(t: Tables, c: CategoryId): (r: Tables)
    ensures r.categories == t.categories - {c}
    ensures r.titles.Keys == t.titles.Keys
    ensures forall x | x in r.titles :: r.titles[x].category != Some(c)
    ensures r.titles == ClearCategory(t.titles, c)
    ensures r == t.(categories := r.categories, titles := r.titles)
  {
    t.(categories := t.categories - {c}, titles := ClearCategory(t.titles, c))
  }

  lemma {:induction false} RemoveCategoryConsistent(t: Tables, c: CategoryId)
    requires Consistent(t)
    ensures Shrinks(t, RemoveCategory(t, c))
    ensures Consistent(RemoveCategory(t, c))
  {
    var r := RemoveCategory(t, c);
    forall x | x in r.titles
      ensures (r.titles[x].category.Some? ==> r.titles[x].category.value in r.categories)
      ensures r.titles[x].genres <= r.genres.Keys
    {
      assert r.titles[x] == if t.titles[x].category == Some(c) then t.titles[x].(category := None) else t.titles[x];
    }
  }

  /** A genre's deletion: its link rows to titles go with it. */
  function RemoveGenre(t: Tables, g: GenreId): (r: Tables)
    ensures r.genres == t.genres - {g}
    ensures r.titles.Keys == t.titles.Keys
    ensures forall x | x in r.titles :: g !in r.titles[x].genres
    ensures r.titles == DropGenre(t.titles, g)
    ensures r == t.(genres := r.genres, titles := r.titles)
  {
    t.(genres := t.genres - {g}, titles := DropGenre(t.titles, g))
  }

  lemma {:induction false} RemoveGenreConsistent(t: Tables, g: GenreId)
    requires Consistent(t)
    ensures Shrinks(t, RemoveGenre(t, g))
    ensures Consistent(RemoveGenre(t, g))
  {
    var r := RemoveGenre(t, g);
    forall x | x in r.titles
      ensures (r.titles[x].category.Some? ==> r.titles[x].category.value in r.categories)
      ensures r.titles[x].genres <= r.genres.Keys
    {
      assert r.titles[x] == t.titles[x].(genres := t.titles[x].genres - {g});
    }
  }

  /** A title's deletion: `CASCADE` on `Review.title` removes its reviews, and
      `CASCADE` on `Comment.review` the comments on them. */
  function RemoveTitle(t: Tables, x: TitleId): (r: Tables)
    ensures r.titles == t.titles - {x}
    ensures r.users == t.users && r.categories == t.categories && r.genres == t.genres
    ensures forall v :: v in r.reviews <==> v in t.reviews && t.reviews[v].title != x
    ensures forall v | v in r.reviews :: r.reviews[v] == t.reviews[v]
    ensures forall c :: c in r.comments <==> c in t.comments && t.comments[c].review !in ReviewsOfTitle(t.reviews, x)
    ensures forall c | c in r.comments :: r.comments[c] == t.comments[c]
  {
    var doomed := ReviewsOfTitle(t.reviews, x);
    t.(titles := t.titles - {x},
       reviews := t.reviews - doomed,
       comments := t.comments - CommentsOnReviews(t.comments, doomed))
  }

  lemma {:induction false} RemoveTitleConsistent(t: Tables, x: TitleId)
    requires Consistent(t)
    ensures Shrinks(t, RemoveTitle(t, x))
    ensures Consistent(RemoveTitle(t, x))
    ensures ScoresInRange(t.reviews) ==> ScoresInRange(RemoveTitle(t, x).reviews)
  {
    var r := RemoveTitle(t, x);
    forall c | c in r.comments ensures r.comments[c].review in r.reviews {
      var v := t.comments[c].review;
      assert v in t.reviews && v !in ReviewsOfTitle(t.reviews, x);
    }
  }

  /** A review's deletion: `CASCADE` on `Comment.review` removes its comments. */
  function RemoveReview(t: Tables, v: ReviewId): (r: Tables)
    ensures r.reviews == t.reviews - {v}
    ensures r.users == t.users && r.categories == t.categories && r.genres == t.genres && r.titles == t.titles
    ensures forall c :: c in r.comments <==> c in t.comments && t.comments[c].review != v
    ensures forall c | c in r.comments :: r.comments[c] == t.comments[c]
  {
    t.(reviews := t.reviews - {v}, comments := t.comments - CommentsOnReviews(t.comments, {v}))
  }

  lemma {:induction false} RemoveReviewConsistent(t: Tables, v: ReviewId)
    requires Consistent(t)
    ensures Shrinks(t, RemoveReview(t, v))
    ensures Consistent(RemoveReview(t, v))
    ensures ScoresInRange(t.reviews) ==> ScoresInRange(RemoveReview(t, v).reviews)
  {
    var r := RemoveReview(t, v);
    forall c | c in r.comments ensures r.comments[c].review in r.reviews {
      assert t.comments[c].review in t.reviews;
    }
  }

  /** A comment's deletion; nothing refers to comments. */
  lemma RemoveCommentConsistent(t: Tables, c: CommentId)
    requires Consistent(t)
    ensures Shrinks(t, t.(comments := t.comments - {c}))
    ensures Consistent(t.(comments := t.comments - {c}))
  {
    var r := t.(comments := t.comments - {c});
    assert forall k | k in r.comments :: r.comments[k] == t.comments[k];
  }

  /** Distinct keys of a table each lie below its auto-increment counter. */
  predicate Counted(t: Tables, nu: nat, nc: nat, ng: nat, nt: nat, nr: nat, nm: nat)
  {
    && KeysBelow(t.users, nu)
    && KeysBelow(t.categories, nc)
    && KeysBelow(t.genres, ng)
    && KeysBelow(t.titles, nt)
    && KeysBelow(t.reviews, nr)
    && KeysBelow(t.comments, nm)
  }

  /** No table of `r` has a key that the same table of `t` lacks. */
  predicate Shrinks(t: Tables, r: Tables)
  {
    && r.users.Keys <= t.users.Keys && r.categories.Keys <= t.categories.Keys
    && r.genres.Keys <= t.genres.Keys && r.titles.Keys <= t.titles.Keys
    && r.reviews.Keys <= t.reviews.Keys && r.comments.Keys <= t.comments.Keys
  }

  /** Deleting rows keeps every key below its counter. */
  lemma Shrunk(t: Tables, r: Tables, nu: nat, nc: nat, ng: nat, nt: nat, nr: nat, nm: nat)
    requires Counted(t, nu, nc, ng, nt, nr, nm) && Shrinks(t, r)
    ensures Counted(r, nu, nc, ng, nt, nr, nm)
  {
  }

  /** The database: its tables and the auto-increment counter of each. */
  class Database {
    var tables: Tables
    var nextUser: nat
    var nextCategory: nat
    var nextGenre: nat
    var nextTitle: nat
    var nextReview: nat
    var nextComment: nat

    /** What the database itself enforces, and fresh keys for new rows. */
    ghost predicate Valid()
      reads this
    {
      Consistent(tables) && Counted(tables, nextUser, nextCategory, nextGenre, nextTitle, nextReview, nextComment)
    }

    /** `Valid`, and also what the field validators keep: every score is in
        1..10 and every role is one of the declared choices. */
    ghost predicate Sound()
      reads this
    {
      Valid() && ScoresInRange(tables.reviews) && RolesValid(tables.users)
    }

    constructor ()
      ensures Sound()
      ensures tables == Tables(map[], map[], map[], map[], map[], map[])
    {
      tables := Tables(map[], map[], map[], map[], map[], map[]);
      nextUser, nextCategory, nextGenre := 0, 0, 0;
      nextTitle, nextReview, nextComment := 0, 0, 0;
    }

    /** `INSERT` into the user table; a row the constraints refuse raises
        `IntegrityError`, which is `None` here. */
    method InsertUser(u: User) returns (id: Option<UserId>)
      requires Valid()
      modifies this`tables, this`nextUser
      ensures Valid()
      ensures id.Some? <==>
        u.username != ReservedUsername && !UsernameTaken(old(tables).users, u.username)
        && !EmailTaken(old(tables).users, u.email)
      ensures id.Some? ==> id.value !in old(tables).users && tables == old(tables).(users := old(tables).users[id.value := u])
      ensures id.None? ==> tables == old(tables)
    {
      FreshRowAdmissible(tables.users, nextUser, u);
      if RowAdmissible(tables.users, nextUser, u) {
        PutUserIff(tables, nextUser, u);
        id := Some(nextUser);
        tables := tables.(users := tables.users[nextUser := u]);
        nextUser := nextUser + 1;
      } else {
        id := None;
      }
    }

    /** `instance.save()` of a stored user row; `false` is an `IntegrityError`. */
    method SaveUser(id: UserId, u: User) returns (ok: bool)
      requires Valid() && id in tables.users
      modifies this`tables
      ensures Valid()
      ensures ok <==> RowAdmissible(old(tables).users, id, u)
      ensures tables == if ok then old(tables).(users := old(tables).users[id := u]) else old(tables)
    {
      ok := RowAdmissible(tables.users, id, u);
      if ok {
        PutUserIff(tables, id, u);
        tables := tables.(users := tables.users[id := u]);
      }
    }

    method DeleteUser(id: UserId)
      requires Valid()
      modifies this`tables
      ensures Valid()
      ensures tables == RemoveUser(old(tables), id)
      ensures old(ScoresInRange(tables.reviews)) ==> ScoresInRange(tables.reviews)
    {
      ghost var before := tables;
      RemoveUserConsistent(tables, id);
      tables := RemoveUser(tables, id);
      Shrunk(before, tables, nextUser, nextCategory, nextGenre, nextTitle, nextReview, nextComment);
    }

    method InsertCategory(tag: Tag) returns (id: Option<CategoryId>)
      requires Valid()
      modifies this`tables, this`nextCategory
      ensures Valid()
      ensures id.Some? <==> !SlugTaken(old(tables).categories, tag.slug)
      ensures id.Some? ==>
        id.value !in old(tables).categories
        && tables == old(tables).(categories := old(tables).categories[id.value := tag])
      ensures id.None? ==> tables == old(tables)
    {
      FreshTagAdmissible(tables.categories, nextCategory, tag);
      if TagAdmissible(tables.categories, nextCategory, tag) {
        PutCategoryIff(tables, nextCategory, tag);
        id := Some(nextCategory);
        tables := tables.(categories := tables.categories[nextCategory := tag]);
        nextCategory := nextCategory + 1;
      } else {
        id := None;
      }
    }

    method InsertGenre(tag: Tag) returns (id: Option<GenreId>)
      requires Valid()
      modifies this`tables, this`nextGenre
      ensures Valid()
      ensures id.Some? <==> !SlugTaken(old(tables).genres, tag.slug)
      ensures id.Some? ==>
        id.value !in old(tables).genres
        && tables == old(tables).(genres := old(tables).genres[id.value := tag])
      ensures id.None? ==> tables == old(tables)
    {
      FreshTagAdmissible(tables.genres, nextGenre, tag);
      if TagAdmissible(tables.genres, nextGenre, tag) {
        PutGenreIff(tables, nextGenre, tag);
        id := Some(nextGenre);
        tables := tables.(genres := tables.genres[nextGenre := tag]);
        nextGenre := nextGenre + 1;
      } else {
        id := None;
      }
    }

    method DeleteCategory(c: CategoryId)
      requires Valid()
      modifies this`tables
      ensures Valid()
      ensures tables == RemoveCategory(old(tables), c)
    {
      ghost var before := tables;
      RemoveCategoryConsistent(tables, c);
      tables := RemoveCategory(tables, c);
      Shrunk(before, tables, nextUser, nextCategory, nextGenre, nextTitle, nextReview, nextComment);
    }

    method DeleteGenre(g: GenreId)
      requires Valid()
      modifies this`tables
      ensures Valid()
      ensures tables == RemoveGenre(old(tables), g)
    {
      ghost var before := tables;
      RemoveGenreConsistent(tables, g);
      tables := RemoveGenre(tables, g);
      Shrunk(before, tables, nextUser, nextCategory, nextGenre, nextTitle, nextReview, nextComment);
    }

    /** `INSERT` into the title table; a dangling foreign key is an `IntegrityError`. */
    method InsertTitle(x: Title) returns (id: Option<TitleId>)
      requires Valid()
      modifies this`tables, this`nextTitle
      ensures Valid()
      ensures id.Some? <==> TitleAdmissible(old(tables), x)
      ensures id.Some? ==> id.value !in old(tables).titles && tables == old(tables).(titles := old(tables).titles[id.value := x])
      ensures id.None? ==> tables == old(tables)
    {
      if TitleAdmissible(tables, x) {
        PutTitleIff(tables, nextTitle, x);
        id := Some(nextTitle);
        tables := tables.(titles := tables.titles[nextTitle := x]);
        nextTitle := nextTitle + 1;
      } else {
        id := None;
      }
    }

    method SaveTitle(id: TitleId, x: Title) returns (ok: bool)
      requires Valid() && id in tables.titles
      modifies this`tables
      ensures Valid()
      ensures ok <==> TitleAdmissible(old(tables), x)
      ensures tables == if ok then old(tables).(titles := old(tables).titles[id := x]) else old(tables)
    {
      ok := TitleAdmissible(tables, x);
      if ok {
        PutTitleIff(tables, id, x);
        tables := tables.(titles := tables.titles[id := x]);
      }
    }

    method DeleteTitle(x: TitleId)
      requires Valid()
      modifies this`tables
      ensures Valid()
      ensures tables == RemoveTitle(old(tables), x)
      ensures old(ScoresInRange(tables.reviews)) ==> ScoresInRange(tables.reviews)
    {
      ghost var before := tables;
      RemoveTitleConsistent(tables, x);
      tables := RemoveTitle(tables, x);
      Shrunk(before, tables, nextUser, nextCategory, nextGenre, nextTitle, nextReview, nextComment);
    }

    /** `INSERT` into the review table; the unique constraint, a dangling
        foreign key or a score outside the column's range raises (`None`). */
    method InsertReview(rv: Review) returns (id: Option<ReviewId>)
      requires Valid()
      modifies this`tables, this`nextReview
      ensures Valid()
      ensures id.Some? <==>
        rv.author in old(tables).users && rv.title in old(tables).titles
        && !ReviewExists(old(tables).reviews, rv.author, rv.title) && 0 <= rv.score <= SmallIntMax
      ensures id.Some? ==> id.value !in old(tables).reviews && tables == old(tables).(reviews := old(tables).reviews[id.value := rv])
      ensures id.None? ==> tables == old(tables)
    {
      FreshReviewAdmissible(tables, nextReview, rv);
      if ReviewAdmissible(tables, nextReview, rv) && 0 <= rv.score <= SmallIntMax {
        PutReviewIff(tables, nextReview, rv);
        id := Some(nextReview);
        tables := tables.(reviews := tables.reviews[nextReview := rv]);
        nextReview := nextReview + 1;
      } else {
        id := None;
      }
    }

    /** `instance.save()` of a stored review row. */
    method SaveReview(id: ReviewId, rv: Review) returns (ok: bool)
      requires Valid() && id in tables.reviews
      modifies this`tables
      ensures Valid()
      ensures ok <==> ReviewAdmissible(old(tables), id, rv) && 0 <= rv.score <= SmallIntMax
      ensures tables == if ok then old(tables).(reviews := old(tables).reviews[id := rv]) else old(tables)
    {
      ok := ReviewAdmissible(tables, id, rv) && 0 <= rv.score <= SmallIntMax;
      if ok {
        PutReviewIff(tables, id, rv);
        tables := tables.(reviews := tables.reviews[id := rv]);
      }
    }

    method DeleteReview(v: ReviewId)
      requires Valid()
      modifies this`tables
      ensures Valid()
      ensures tables == RemoveReview(old(tables), v)
      ensures old(ScoresInRange(tables.reviews)) ==> ScoresInRange(tables.reviews)
    {
      ghost var before := tables;
      RemoveReviewConsistent(tables, v);
      tables := RemoveReview(tables, v);
      Shrunk(before, tables, nextUser, nextCategory, nextGenre, nextTitle, nextReview, nextComment);
    }

    method InsertComment(c: Comment) returns (id: Option<CommentId>)
      requires Valid()
      modifies this`tables, this`nextComment
      ensures Valid()
      ensures id.Some? <==> CommentAdmissible(old(tables), c)
      ensures id.Some? ==>
        id.value !in old(tables).comments
        && tables == old(tables).(comments := old(tables).comments[id.value := c])
      ensures id.None? ==> tables == old(tables)
    {
      if CommentAdmissible(tables, c) {
        PutCommentIff(tables, nextComment, c);
        id := Some(nextComment);
        tables := tables.(comments := tables.comments[nextComment := c]);
        nextComment := nextComment + 1;
      } else {
        id := None;
      }
    }

    method SaveComment(id: CommentId, c: Comment) returns (ok: bool)
      requires Valid() && id in tables.comments
      modifies this`tables
      ensures Valid()
      ensures ok <==> CommentAdmissible(old(tables), c)
      ensures tables == if ok then old(tables).(comments := old(tables).comments[id := c]) else old(tables)
    {
      ok := CommentAdmissible(tables, c);
      if ok {
        PutCommentIff(tables, id, c);
        ghost var before := tables;
        tables := tables.(comments := tables.comments[id := c]);
        Shrunk(before, tables, nextUser, nextCategory, nextGenre, nextTitle, nextReview, nextComment);
      }
    }

    method DeleteComment(c: CommentId)
      requires Valid()
      modifies this`tables
      ensures Valid()
      ensures tables == old(tables).(comments := old(tables).comments - {c})
    {
      ghost var before := tables;
      RemoveCommentConsistent(tables, c);
      tables := tables.(comments := tables.comments - {c});
      Shrunk(before, tables, nextUser, nextCategory, nextGenre, nextTitle, nextReview, nextComment);
    }
  }
}
