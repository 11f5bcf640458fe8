/**
 * The aggregation helpers over a sequence of blog records: `totalLikes`,
 * `favoriteBlog`, `mostBlogs` and `mostLikes`. Every helper is a reduction;
 * nothing is mutated.
 */
module ListHelper {
  import opened Common

  /** A blog record as the helpers see it. */
  datatype Blog = Blog(title: string, author: string, url: string, likes: int)

  /** The `{ title, author, likes }` object `favoriteBlog` returns. */
  datatype Favorite = Favorite(title: string, author: string, likes: int)

  /** The `{ author, blogs }` object `mostBlogs` returns. */
  datatype AuthorBlogs = AuthorBlogs(author: string, blogs: int)

  /** The `{ author, likes }` objects `mostLikes` builds and returns. */
  datatype AuthorLikes = AuthorLikes(author: string, likes: int)

  // ---------------------------------------------------------------------
  // Reference definitions the helpers are measured against

  /** The sum of the likes of every blog. */
  function SumLikes(blogs: seq<Blog>): int
  {
    if blogs == [] then 0 else blogs[0].likes + SumLikes(blogs[1..])
  }

  /** The blogs written by `author`, in input order. */
  function ByAuthor(blogs: seq<Blog>, author: string): seq<Blog>
  {
    if blogs == [] then []
    else (if blogs[0].author == author then [blogs[0]] else []) + ByAuthor(blogs[1..], author)
  }

  lemma {:induction false} SumLikesAppend(a: seq<Blog>, b: seq<Blog>)
    ensures SumLikes(a + b) == SumLikes(a) + SumLikes(b)
  {
    if a == [] {
      assert a + b == b;
    } else {
      assert (a + b)[1..] == a[1..] + b;
      SumLikesAppend(a[1..], b);
    }
  }

  lemma {:induction false} ByAuthorAppend(a: seq<Blog>, b: seq<Blog>, author: string)
    ensures ByAuthor(a + b, author) == ByAuthor(a, author) + ByAuthor(b, author)
  {
    if a == [] {
      assert a + b == b;
    } else {
      assert (a + b)[1..] == a[1..] + b;
      ByAuthorAppend(a[1..], b, author);
    }
  }

  /** Growing the input by one blog grows only its author's group, by that blog. */
  lemma LastByAuthor(blogs: seq<Blog>, a: string)
    requires blogs != []
    ensures ByAuthor(blogs, a) == ByAuthor(blogs[..|blogs| - 1], a) + (if blogs[|blogs| - 1].author == a then [blogs[|blogs| - 1]] else [])
  {
    var n := |blogs|;
    assert blogs == blogs[..n - 1] + [blogs[n - 1]];
    ByAuthorAppend(blogs[..n - 1], [blogs[n - 1]], a);
    assert [blogs[n - 1]][1..] == [];
  }

  // ---------------------------------------------------------------------
  // totalLikes

  /** `blogs.reduce((sum, blog) => sum + blog.likes, sum)` */
  function ReduceLikes(sum: int, blogs: seq<Blog>): int
    decreases blogs
  {
    if blogs == [] then sum else ReduceLikes(sum + blogs[0].likes, blogs[1..])
  }

  lemma {:induction false} ReduceLikesSum(sum: int, blogs: seq<Blog>)
    ensures ReduceLikes(sum, blogs) == sum + SumLikes(blogs)
    decreases blogs
  {
    if blogs != [] {
      ReduceLikesSum(sum + blogs[0].likes, blogs[1..]);
    }
  }

  /** `totalLikes`: the left fold from 0 is the sum of every blog's likes (0 for no blogs). */
  function TotalLikes(blogs: seq<Blog>): (r: int)
    ensures r == SumLikes(blogs)
    ensures blogs == [] ==> r == 0
  {
    ReduceLikesSum(0, blogs);
    ReduceLikes(0, blogs)
  }

  /** `totalLikes` is additive over concatenation. */
  lemma TotalLikesAppend(a: seq<Blog>, b: seq<Blog>)
    ensures TotalLikes(a + b) == TotalLikes(a) + TotalLikes(b)
  {
    SumLikesAppend(a, b);
  }

  // ---------------------------------------------------------------------
  // Strict-maximum reduction, shared by `favoriteBlog` and lodash `maxBy`

  /** `s[i]` has the greatest key, and every element before it a strictly smaller one. */
  ghost predicate IsFirstMax<T>(s: seq<T>, i: int, key: T -> int)
  {
    && 0 <= i < |s|
    && (forall j :: 0 <= j < i ==> key(s[j]) < key(s[i]))
    && (forall j :: 0 <= j < |s| ==> key(s[j]) <= key(s[i]))
  }

  /** `s.reduce((best, x) => key(x) > key(best) ? x : best, best)` */
  function ReduceMax<T>(best: T, s: seq<T>, key: T -> int): T
  {
    if s == [] then best
    else ReduceMax(if key(s[0]) > key(best) then s[0] else best, s[1..], key)
  }

  /** The reduction keeps its seed unless some element beats it; then it ends on the first maximal one. */
  lemma {:induction false} ReduceMaxSpec<T>(best: T, s: seq<T>, key: T -> int)
    ensures || (ReduceMax(best, s, key) == best && forall j :: 0 <= j < |s| ==> key(s[j]) <= key(best))
            || (exists i :: IsFirstMax(s, i, key) && key(best) < key(s[i]) && ReduceMax(best, s, key) == s[i])
  {
    if s != [] {
      var next := if key(s[0]) > key(best) then s[0] else best;
      var tail := s[1..];
      ReduceMaxSpec(next, tail, key);
      var r := ReduceMax(next, tail, key);
      assert ReduceMax(best, s, key) == r;
      if r == next && forall j :: 0 <= j < |tail| ==> key(tail[j]) <= key(next) {
        forall j | 0 <= j < |s| ensures key(s[j]) <= key(next) {
          if j > 0 { assert s[j] == tail[j - 1]; }
        }
        if key(s[0]) > key(best) {
          assert IsFirstMax(s, 0, key);
        }
      } else {
        var i :| IsFirstMax(tail, i, key) && key(next) < key(tail[i]) && r == tail[i];
        assert s[i + 1] == tail[i];
        forall j | 0 <= j < |s| ensures key(s[j]) <= key(s[i + 1]) && (j < i + 1 ==> key(s[j]) < key(s[i + 1])) {
          if j > 0 { assert s[j] == tail[j - 1]; }
        }
        assert IsFirstMax(s, i + 1, key);
      }
    }
  }

  /** Seeded with its first element, the reduction ends on the first maximal element. */
  lemma ReduceMaxFromHead<T>(s: seq<T>, key: T -> int)
    requires s != []
    ensures exists i :: IsFirstMax(s, i, key) && ReduceMax(s[0], s[1..], key) == s[i]
  {
    // The first step never replaces the seed: key(s[0]) > key(s[0]) is false.
    assert ReduceMax(s[0], s, key) == ReduceMax(s[0], s[1..], key);
    ReduceMaxSpec(s[0], s, key);
    if ReduceMax(s[0], s, key) == s[0] && forall j :: 0 <= j < |s| ==> key(s[j]) <= key(s[0]) {
      assert IsFirstMax(s, 0, key);
    }
  }

  /**
   * lodash `maxBy`: takes the first element, then any later one with a
   * strictly greater key; `undefined` (here `None`) for an empty array.
   */
  function MaxBy<T>(s: seq<T>, key: T -> int): (r: Option<T>)
    ensures r.None? <==> s == []
    ensures r.Some? ==> exists i :: IsFirstMax(s, i, key) && r.value == s[i]
  {
    if s == [] then None
    else
      ReduceMaxFromHead(s, key);
      Some(ReduceMax(s[0], s[1..], key))
  }

  // ---------------------------------------------------------------------
  // favoriteBlog

  /** The `likes` of a blog, the key `favoriteBlog` compares. */
  function LikesOf(b: Blog): int
  {
    b.likes
  }

  /**
   * `favoriteBlog`: reduces from `blogs[0]` with a strict `>`, then projects
   * to title, author and likes. On an empty array the seed is `undefined` and
   * reading its title throws; that outcome is `None`.
   */
  function FavoriteBlog(blogs: seq<Blog>): (r: Option<Favorite>)
    ensures r.None? <==> blogs == []
    ensures r.Some? ==> forall j :: 0 <= j < |blogs| ==> blogs[j].likes <= r.value.likes
    ensures r.Some? ==>
      exists i :: && 0 <= i < |blogs|
                  && r.value == Favorite(blogs[i].title, blogs[i].author, blogs[i].likes)
                  && forall j :: 0 <= j < i ==> blogs[j].likes < blogs[i].likes
  {
    if blogs == [] then None
    else
      var best := ReduceMax(blogs[0], blogs, LikesOf);
      assert best == ReduceMax(blogs[0], blogs[1..], LikesOf);
      ReduceMaxFromHead(blogs, LikesOf);
      Some(Favorite(best.title, best.author, best.likes))
  }

  // ---------------------------------------------------------------------
  // Grouping by author (lodash `countBy` and `groupBy`)

  /**
   * The distinct authors in order of first appearance: the key order of the
   * objects `countBy` and `groupBy` build.
   */
  function Authors(blogs: seq<Blog>): seq<string>
    decreases |blogs|
  {
    if blogs == [] then []
    else
      var keys := Authors(blogs[..|blogs| - 1]);
      var author := blogs[|blogs| - 1].author;
      if author in keys then keys else keys + [author]
  }

  /** `keys[i]` first occurs in `blogs` at a position before which only earlier keys occur. */
  ghost predicate FirstSeenInOrder(blogs: seq<Blog>, keys: seq<string>, i: int)
    requires 0 <= i < |keys|
  {
    exists k :: 0 <= k < |blogs| && blogs[k].author == keys[i] && forall j :: 0 <= j < k ==> blogs[j].author in keys[..i]
  }

  /** Every author of `blogs` is a key. */
  lemma {:induction false} AuthorsCover(blogs: seq<Blog>)
    ensures forall j :: 0 <= j < |blogs| ==> blogs[j].author in Authors(blogs)
    decreases |blogs|
  {
    if blogs != [] {
      var n := |blogs|;
      var prefix := blogs[..n - 1];
      AuthorsCover(prefix);
      assert forall j :: 0 <= j < n - 1 ==> blogs[j] == prefix[j];
    }
  }

  /** The keys come in order of first appearance. */
  lemma {:induction false} AuthorsInOrder(blogs: seq<Blog>)
    ensures forall i :: 0 <= i < |Authors(blogs)| ==> FirstSeenInOrder(blogs, Authors(blogs), i)
    decreases |blogs|
  {
    if blogs != [] {
      var n := |blogs|;
      var prefix := blogs[..n - 1];
      AuthorsInOrder(prefix);
      AuthorsCover(prefix);
      var old_keys := Authors(prefix);
      var keys := Authors(blogs);
      forall i | 0 <= i < |keys| ensures FirstSeenInOrder(blogs, keys, i) {
        if i < |old_keys| {
          assert FirstSeenInOrder(prefix, old_keys, i);
          var k :| 0 <= k < |prefix| && prefix[k].author == old_keys[i]
                   && forall j :: 0 <= j < k ==> prefix[j].author in old_keys[..i];
          assert keys[..i] == old_keys[..i];
          assert forall j :: 0 <= j < k ==> blogs[j] == prefix[j];
          assert blogs[k].author == keys[i];
        } else {
          assert keys[..i] == old_keys;
          assert forall j :: 0 <= j < n - 1 ==> blogs[j] == prefix[j];
          assert blogs[n - 1].author == keys[i];
        }
      }
    }
  }

  /** No author is a key twice. */
  lemma {:induction false} AuthorsDistinct(blogs: seq<Blog>)
    ensures Distinct(Authors(blogs))
    decreases |blogs|
  {
    if blogs != [] {
      AuthorsDistinct(blogs[..|blogs| - 1]);
    }
  }

  /** lodash `countBy(blogs, 'author')`: a tally per author, built left to right. */
  function CountBy(blogs: seq<Blog>): map<string, int>
    decreases |blogs|
  {
    if blogs == [] then map[]
    else
      var counts := CountBy(blogs[..|blogs| - 1]);
      var author := blogs[|blogs| - 1].author;
      counts[author := if author in counts then counts[author] + 1 else 1]
  }

  /** lodash `groupBy(blogs, 'author')`: the blogs of each author, built left to right. */
  function GroupBy(blogs: seq<Blog>): map<string, seq<Blog>>
    decreases |blogs|
  {
    if blogs == [] then map[]
    else
      var groups := GroupBy(blogs[..|blogs| - 1]);
      var blog := blogs[|blogs| - 1];
      groups[blog.author := if blog.author in groups then groups[blog.author] + [blog] else [blog]]
  }

  /** `countBy` has a key for exactly the authors present, holding the number of their blogs. */
  lemma {:induction false} CountBySpec(blogs: seq<Blog>)
    ensures forall a :: a in CountBy(blogs) <==> a in Authors(blogs)
    ensures forall a :: a in CountBy(blogs) ==> CountBy(blogs)[a] == |ByAuthor(blogs, a)|
    ensures forall a :: a !in CountBy(blogs) ==> ByAuthor(blogs, a) == []
    decreases |blogs|
  {
    if blogs != [] {
      var n := |blogs|;
      var prefix := blogs[..n - 1];
      CountBySpec(prefix);
      var counts := CountBy(blogs);
      forall a ensures && (a in counts <==> a in Authors(blogs))
                       && (a in counts ==> counts[a] == |ByAuthor(blogs, a)|)
                       && (a !in counts ==> ByAuthor(blogs, a) == [])
      {
        LastByAuthor(blogs, a);
      }
    }
  }

  /** `groupBy` has a key for exactly the authors present, holding their blogs in input order. */
  lemma {:induction false} GroupBySpec(blogs: seq<Blog>)
    ensures forall a :: a in GroupBy(blogs) <==> a in Authors(blogs)
    ensures forall a :: a in GroupBy(blogs) ==> GroupBy(blogs)[a] == ByAuthor(blogs, a)
    ensures forall a :: a !in GroupBy(blogs) ==> ByAuthor(blogs, a) == []
    decreases |blogs|
  {
    if blogs != [] {
      var n := |blogs|;
      var prefix := blogs[..n - 1];
      GroupBySpec(prefix);
      var groups := GroupBy(blogs);
      forall a ensures && (a in groups <==> a in Authors(blogs))
                       && (a in groups ==> groups[a] == ByAuthor(blogs, a))
                       && (a !in groups ==> ByAuthor(blogs, a) == [])
      {
        LastByAuthor(blogs, a);
      }
    }
  }

  /** Every author scores at most the first maximal key. */
  lemma FirstMaxBound(blogs: seq<Blog>, keys: seq<string>, i: int, score: string -> int)
    requires keys == Authors(blogs) && IsFirstMax(keys, i, score)
    ensures forall j :: 0 <= j < |blogs| ==> score(blogs[j].author) <= score(keys[i])
  {
    AuthorsCover(blogs);
    forall j | 0 <= j < |blogs| ensures score(blogs[j].author) <= score(keys[i]) {
      var m :| 0 <= m < |keys| && keys[m] == blogs[j].author;
    }
  }

  /** Every author of a blog before the first blog of the first maximal key scores strictly less. */
  lemma FirstMaxEarliest(blogs: seq<Blog>, keys: seq<string>, i: int, score: string -> int)
    requires keys == Authors(blogs) && IsFirstMax(keys, i, score)
    ensures exists k :: && 0 <= k < |blogs|
                        && blogs[k].author == keys[i]
                        && forall j :: 0 <= j < k ==> score(blogs[j].author) < score(keys[i])
  {
    AuthorsInOrder(blogs);
    assert FirstSeenInOrder(blogs, keys, i);
    var k :| 0 <= k < |blogs| && blogs[k].author == keys[i] && forall j :: 0 <= j < k ==> blogs[j].author in keys[..i];
    forall j | 0 <= j < k ensures score(blogs[j].author) < score(keys[i]) {
      var m :| 0 <= m < i && keys[..i][m] == blogs[j].author;
      assert keys[m] == blogs[j].author;
    }
  }

  /**
   * The first maximal author in key order beats every author, and strictly
   * beats every author of a blog before its own first blog.
   */
  lemma FirstMaxAuthor(blogs: seq<Blog>, i: int, score: string -> int)
    requires IsFirstMax(Authors(blogs), i, score)
    ensures forall j :: 0 <= j < |blogs| ==> score(blogs[j].author) <= score(Authors(blogs)[i])
    ensures exists k :: && 0 <= k < |blogs|
                        && blogs[k].author == Authors(blogs)[i]
                        && forall j :: 0 <= j < k ==> score(blogs[j].author) < score(Authors(blogs)[i])
  {
    FirstMaxBound(blogs, Authors(blogs), i, score);
    FirstMaxEarliest(blogs, Authors(blogs), i, score);
  }

  // ---------------------------------------------------------------------
  // mostBlogs

  /** The properties of `mostBlogs`'s answer, given the author `maxBy` picked. */
  lemma MostBlogsWinner(blogs: seq<Blog>, count: string -> int, author: string)
    requires forall a :: count(a) == if a in CountBy(blogs) then CountBy(blogs)[a] else 0
    requires exists i :: IsFirstMax(Authors(blogs), i, count) && author == Authors(blogs)[i]
    ensures author in CountBy(blogs) && CountBy(blogs)[author] == |ByAuthor(blogs, author)|
    ensures forall j :: 0 <= j < |blogs| ==> |ByAuthor(blogs, blogs[j].author)| <= |ByAuthor(blogs, author)|
    ensures exists k :: && 0 <= k < |blogs|
                        && blogs[k].author == author
                        && forall j :: 0 <= j < k ==> |ByAuthor(blogs, blogs[j].author)| < |ByAuthor(blogs, author)|
  {
    CountBySpec(blogs);
    var keys := Authors(blogs);
    var i :| IsFirstMax(keys, i, count) && author == keys[i];
    var size := (a: string) => |ByAuthor(blogs, a)|;
    assert forall a :: count(a) == size(a);
    assert IsFirstMax(keys, i, size);
    FirstMaxAuthor(blogs, i, size);
  }

  /**
   * `mostBlogs`: `maxBy` over the `countBy` keys, scored by their tally.
   * For an empty array `maxBy` yields `undefined`, and the result is
   * `{ author: undefined, blogs: undefined }`; that outcome is `None`.
   */
  function MostBlogs(blogs: seq<Blog>): (r: Option<AuthorBlogs>)
    ensures r.None? <==> blogs == []
    ensures r.Some? ==> r.value.blogs == |ByAuthor(blogs, r.value.author)|
    ensures r.Some? ==> forall j :: 0 <= j < |blogs| ==> |ByAuthor(blogs, blogs[j].author)| <= r.value.blogs
    ensures r.Some? ==>
      exists k :: && 0 <= k < |blogs|
                  && blogs[k].author == r.value.author
                  && forall j :: 0 <= j < k ==> |ByAuthor(blogs, blogs[j].author)| < r.value.blogs
  {
    var counts := CountBy(blogs);
    var count := (a: string) => if a in counts then counts[a] else 0;
    AuthorsCover(blogs);
    match MaxBy(Authors(blogs), count)
    case None => None
    case Some(author) =>
      MostBlogsWinner(blogs, count, author);
      Some(AuthorBlogs(author, counts[author]))
  }

  // ---------------------------------------------------------------------
  // mostLikes

  /** The `likes` property, the key `maxBy(authorLikes, 'likes')` compares. */
  function AuthorLikesOf(x: AuthorLikes): int
  {
    x.likes
  }

  /** `_.map(groups, (userBlogs, author) => ({ author, likes: <sum of userBlogs' likes> }))` in key order. */
  function AuthorTotals(keys: seq<string>, groups: map<string, seq<Blog>>): (r: seq<AuthorLikes>)
    requires forall a :: a in keys ==> a in groups
    ensures |r| == |keys|
    ensures forall i :: 0 <= i < |r| ==> r[i] == AuthorLikes(keys[i], SumLikes(groups[keys[i]]))
  {
    seq(|keys|, i requires 0 <= i < |keys| => AuthorLikes(keys[i], TotalLikes(groups[keys[i]])))
  }

  /** The properties of `mostLikes`'s answer, given the entry `maxBy` picked. */
  lemma MostLikesWinner(blogs: seq<Blog>, totals: seq<AuthorLikes>, best: AuthorLikes)
    requires |totals| == |Authors(blogs)|
    requires forall i :: 0 <= i < |totals| ==> totals[i] == AuthorLikes(Authors(blogs)[i], SumLikes(ByAuthor(blogs, Authors(blogs)[i])))
    requires exists i :: IsFirstMax(totals, i, AuthorLikesOf) && best == totals[i]
    ensures best.likes == SumLikes(ByAuthor(blogs, best.author))
    ensures forall j :: 0 <= j < |blogs| ==> SumLikes(ByAuthor(blogs, blogs[j].author)) <= best.likes
    ensures exists k :: && 0 <= k < |blogs|
                        && blogs[k].author == best.author
                        && forall j :: 0 <= j < k ==> SumLikes(ByAuthor(blogs, blogs[j].author)) < best.likes
  {
    var keys := Authors(blogs);
    var i :| IsFirstMax(totals, i, AuthorLikesOf) && best == totals[i];
    var score := (a: string) => SumLikes(ByAuthor(blogs, a));
    assert forall j :: 0 <= j < |keys| ==> score(keys[j]) == AuthorLikesOf(totals[j]);
    assert IsFirstMax(keys, i, score);
    FirstMaxAuthor(blogs, i, score);
  }

  /**
   * `mostLikes`: `groupBy` author, one `{ author, likes }` per group in key
   * order, then `maxBy` on `likes`. For an empty array `maxBy` yields
   * `undefined`; that outcome is `None`.
   */
  function MostLikes(blogs: seq<Blog>): (r: Option<AuthorLikes>)
    ensures r.None? <==> blogs == []
    ensures r.Some? ==> r.value.likes == SumLikes(ByAuthor(blogs, r.value.author))
    ensures r.Some? ==> forall j :: 0 <= j < |blogs| ==> SumLikes(ByAuthor(blogs, blogs[j].author)) <= r.value.likes
    ensures r.Some? ==>
      exists k :: && 0 <= k < |blogs|
                  && blogs[k].author == r.value.author
                  && forall j :: 0 <= j < k ==> SumLikes(ByAuthor(blogs, blogs[j].author)) < r.value.likes
  {
    var groups := GroupBy(blogs);
    GroupBySpec(blogs);
    AuthorsCover(blogs);
    var totals := AuthorTotals(Authors(blogs), groups);
    match MaxBy(totals, AuthorLikesOf)
    case None => None
    case Some(best) =>
      MostLikesWinner(blogs, totals, best);
      Some(best)
  }
}
