/** The success stories page: like and bookmark toggles on the in-memory
    stories, the search and tab filter, and the most-popular sort. */
module SuccessStories {
  import opened Text
  import opened Seqs

  /** One story card's data, held in the page's state. */
  datatype Story = Story(
    id: int,
    title: string,
    excerpt: string,
    author: string,
    role: string,
    date: string,
    readTime: string,
    likes: int,
    comments: int,
    tags: seq<string>,
    isBookmarked: bool,
    isLiked: bool,
    image: string)

  /** The story's like count without the viewer's own like. */
  function OthersLikes(s: Story): int {
    if s.isLiked then s.likes - 1 else s.likes
  }

  function LikeFlipped(s: Story): Story {
    s.(isLiked := !s.isLiked, likes := if s.isLiked then s.likes - 1 else s.likes + 1)
  }

  /** `toggleLike`: the stories with the id flip their like and move their
      count by one in that direction; every other story is untouched. */
  function ToggleLike(stories: seq<Story>, id: int): (r: seq<Story>)
    ensures |r| == |stories|
    ensures forall i :: 0 <= i < |r| && stories[i].id != id ==> r[i] == stories[i]
    ensures forall i :: 0 <= i < |r| && stories[i].id == id ==>
              r[i].isLiked == !stories[i].isLiked
              && r[i].likes == stories[i].likes + (if r[i].isLiked then 1 else -1)
              && r[i].(likes := 0, isLiked := false) == stories[i].(likes := 0, isLiked := false)
    ensures forall i :: 0 <= i < |r| ==> OthersLikes(r[i]) == OthersLikes(stories[i]) && r[i].id == stories[i].id
  {
    seq(|stories|, i requires 0 <= i < |stories| =>
      if stories[i].id == id then LikeFlipped(stories[i]) else stories[i])
  }

  /** Liking twice is no change. */
  lemma ToggleLikeTwice(stories: seq<Story>, id: int)
    ensures ToggleLike(ToggleLike(stories, id), id) == stories
  {
  }

  /** `toggleBookmark`: only the bookmark flag of the stories with the id
      flips. */
  function ToggleBookmark(stories: seq<Story>, id: int): (r: seq<Story>)
    ensures |r| == |stories|
    ensures forall i :: 0 <= i < |r| && stories[i].id != id ==> r[i] == stories[i]
    ensures forall i :: 0 <= i < |r| && stories[i].id == id ==>
              r[i] == stories[i].(isBookmarked := !stories[i].isBookmarked)
  {
    seq(|stories|, i requires 0 <= i < |stories| =>
      if stories[i].id == id then stories[i].(isBookmarked := !stories[i].isBookmarked) else stories[i])
  }

  /** Bookmarking twice is no change, and likes and bookmarks do not
      interfere. */
  lemma ToggleBookmarkTwice(stories: seq<Story>, id: int, other: int)
    ensures ToggleBookmark(ToggleBookmark(stories, id), id) == stories
    ensures ToggleBookmark(ToggleLike(stories, other), id) == ToggleLike(ToggleBookmark(stories, id), other)
  {
  }

  /** The tab that narrows to well-liked stories, and its threshold. */
  const PopularTab := "popular"
  const PopularThreshold := 100

  predicate MatchesQuery(s: Story, query: string) {
    MatchesIgnoringCase(s.title, query) || MatchesIgnoringCase(s.excerpt, query) || MatchesIgnoringCase(s.author, query)
  }

  function Shown(query: string, tab: string): Story -> bool {
    (s: Story) => MatchesQuery(s, query) && (tab != PopularTab || s.likes > PopularThreshold)
  }

  /** `filteredStories`: a story stays when the query occurs, ignoring case,
      in its title, excerpt or author; the popular tab also needs more than
      100 likes, every other tab applies the search alone. */
  function FilteredStories(stories: seq<Story>, query: string, tab: string): (r: seq<Story>)
    ensures forall s :: s in r <==>
      (s in stories
       && (Contains(Lower(s.title), Lower(query)) || Contains(Lower(s.excerpt), Lower(query)) || Contains(Lower(s.author), Lower(query)))
       && (tab == PopularTab ==> s.likes > 100))
    ensures IsSubseq(r, stories)
  {
    Filter(stories, Shown(query, tab))
  }

  /** The empty query on any tab but popular shows every story; the
      popular tab shows an ordered part of that. */
  lemma TabsAndEmptyQuery(stories: seq<Story>, tab: string)
    ensures tab != PopularTab ==> FilteredStories(stories, "", tab) == stories
    ensures IsSubseq(FilteredStories(stories, "", PopularTab), stories)
  {
    forall s | s in stories ensures MatchesQuery(s, "") {
      MatchIgnoresTermCase(s.title, "");
    }
    if tab != PopularTab {
      FilterAll(stories, Shown("", tab));
    }
  }

  /** The popular tab keeps an ordered part of what "all" shows, and the
      query's letter case does not matter. */
  lemma PopularNarrowsAll(stories: seq<Story>, query: string)
    ensures IsSubseq(FilteredStories(stories, query, PopularTab), FilteredStories(stories, query, "all"))
    ensures FilteredStories(stories, Upper(query), PopularTab) == FilteredStories(stories, query, PopularTab)
  {
    FilterNarrows(stories, Shown(query, PopularTab), Shown(query, "all"));
    forall s | s in stories ensures Shown(Upper(query), PopularTab)(s) == Shown(query, PopularTab)(s) {
      MatchIgnoresTermCase(s.title, query);
      MatchIgnoresTermCase(s.excerpt, query);
      MatchIgnoresTermCase(s.author, query);
    }
    FilterCongruent(stories, Shown(Upper(query), PopularTab), Shown(query, PopularTab));
  }

  /** Most liked first. */
  predicate ByLikesDescending(s: seq<Story>) {
    forall i, j :: 0 <= i < j < |s| ==> s[i].likes >= s[j].likes
  }

  /** Puts `x` into a list sorted by likes, before the first story it has at
      least as many likes as. */
  function InsertByLikes(x: Story, s: seq<Story>): (r: seq<Story>)
    requires ByLikesDescending(s)
    ensures ByLikesDescending(r)
    ensures multiset(r) == multiset(s) + multiset{x}
    ensures forall e :: e in r ==> e == x || e in s
  {
    if |s| == 0 || x.likes >= s[0].likes then
      [x] + s
    else
      var rest := InsertByLikes(x, s[1..]);
      assert s == [s[0]] + s[1..];
      assert forall e :: e in rest ==> s[0].likes >= e.likes;
      [s[0]] + rest
  }

  /** The "Most Popular" sort (`b.likes - a.likes`, on a stable sort): a
      rearrangement of the filtered list, most liked first. */
  function SortByLikes(s: seq<Story>): (r: seq<Story>)
    ensures ByLikesDescending(r)
    ensures multiset(r) == multiset(s)
    ensures |r| == |s|
  {
    if |s| == 0 then []
    else
      assert s == [s[0]] + s[1..];
      InsertByLikes(s[0], SortByLikes(s[1..]))
  }

  /** Sorting shows the same stories the filter chose. */
  lemma SortByLikesKeepsStories(stories: seq<Story>, query: string, tab: string)
    ensures forall s :: s in SortByLikes(FilteredStories(stories, query, tab)) <==> s in FilteredStories(stories, query, tab)
  {
    var f := FilteredStories(stories, query, tab);
    assert forall s :: s in SortByLikes(f) <==> s in multiset(SortByLikes(f));
    assert forall s :: s in f <==> s in multiset(f);
  }

  /** A list already most-liked-first, ties included, comes back unchanged:
      the sort moves nothing it does not have to. */
  lemma {:induction false} SortByLikesKeepsSorted(s: seq<Story>)
    requires ByLikesDescending(s)
    ensures SortByLikes(s) == s
  {
    if |s| > 0 {
      SortByLikesKeepsSorted(s[1..]);
      assert s == [s[0]] + s[1..];
    }
  }
}
