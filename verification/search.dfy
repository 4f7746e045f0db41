/**
 * The search side of the list: when the typed query counts as a search,
 * which list is displayed, and which messages and controls accompany it.
 */
module Search {
  import opened Wrappers
  import opened JsValues

  /** A query shorter than this (after trimming) does not search. */
  const MinQueryLength := 3

  datatype Reactions = Reactions(likes: int, dislikes: int)

  /** One record of the remote collection, replaced wholesale by every response. */
  datatype Post = Post(id: int, title: string, body: string, views: int,
                       reactions: Option<Reactions>, tags: seq<string>)

  /** `isSearch`: the input, trimmed, is at least three UTF-16 code units long. */
  predicate IsSearch(searchInput: string) {
    Utf16Length(Trim(searchInput)) >= MinQueryLength
  }

  /**
   * The change handler stores the box's text already trimmed; trimming it again for
   * `isSearch` changes nothing, so a keystroke qualifies exactly when its
   * trimmed text is at least three code units long. Whitespace alone, or
   * any text shorter than three code units, never does; three characters
   * always do.
   */
  lemma TrimmedInputIsSearch(raw: string)
    ensures IsSearch(Trim(raw)) <==> Utf16Length(Trim(raw)) >= MinQueryLength
    ensures AllWhitespace(raw) ==> !IsSearch(Trim(raw))
    ensures Utf16Length(raw) < MinQueryLength ==> !IsSearch(Trim(raw))
    ensures |Trim(raw)| >= MinQueryLength ==> IsSearch(Trim(raw))
  {
    TrimIdempotent(raw);
    TrimSpec(raw);
    Utf16LengthTrim(raw);
    Utf16LengthBounds(Trim(raw));
  }

  /** A character beyond the Basic Multilingual Plane counts twice: an emoji and one letter make a search. */
  lemma AstralCharacterCountsTwice()
    ensures |"\U{1F600}a"| == 2
    ensures IsSearch("\U{1F600}a")
  {
    var t := "\U{1F600}a";
    TrimOfTrimmed(t);
    assert t[1..] == "a" && "a"[1..] == [];
    assert Utf16Length(t) == 3;
  }

  /** The sample queries used below: "abc" and "cats" qualify, "ab" and "" do not. */
  lemma SampleQueries()
    ensures IsSearch("abc") && IsSearch("cats") && !IsSearch("ab") && !IsSearch("")
    ensures Trim("abc") == "abc" && Trim("ab") == "ab" && Trim("cats") == "cats" && Trim("") == ""
  {
    TrimOfTrimmed("abc");
    TrimOfTrimmed("ab");
    TrimOfTrimmed("cats");
    TrimOfTrimmed("");
    Utf16LengthBounds("abc");
    Utf16LengthBounds("ab");
    Utf16LengthBounds("cats");
  }

  /**
   * `handleSearch()`: the list on screen. A qualifying query shows the
   * search results, anything shorter shows the fetched page.
   */
  function HandleSearch(searchInput: string, posts: seq<Post>, filterPosts: seq<Post>): (shown: seq<Post>)
    ensures IsSearch(searchInput) ==> shown == filterPosts
    ensures !IsSearch(searchInput) ==> shown == posts
  {
    if IsSearch(searchInput) then filterPosts else posts
  }

  /**
   * Whether the page-size select and page buttons are rendered: only while
   * the search results are empty, whatever `searchInput` holds.
   */
  predicate PaginationVisible(filterPosts: seq<Post>) {
    |filterPosts| == 0
  }

  /**
   * The condition guarding the "no results" banner: it asks for loading
   * and not loading at once, so the banner is never rendered.
   */
  function NoResultsBanner(loading: bool, shown: seq<Post>): (show: bool)
    ensures !show
  {
    loading && |shown| == 0 && !loading
  }

  /** What the list area renders. */
  datatype ListArea =
    | Items(posts: seq<Post>)   // one entry per displayed post
    | NotFoundMessage            // a search with no results
    | EmptyMessage               // no posts, shown only while a fetch is running
    | Blank                      // no posts and not loading: nothing at all

  /** The list area: the displayed posts, or one of the two messages, or nothing. */
  function RenderList(searchInput: string, posts: seq<Post>, filterPosts: seq<Post>, loading: bool): (v: ListArea)
    ensures v.Items? <==> |HandleSearch(searchInput, posts, filterPosts)| > 0
    ensures v.Items? ==> v.posts == HandleSearch(searchInput, posts, filterPosts)
    ensures v.NotFoundMessage? <==> IsSearch(searchInput) && |filterPosts| == 0
    ensures v.EmptyMessage? <==> !IsSearch(searchInput) && |posts| == 0 && loading
    ensures v.Blank? <==> !IsSearch(searchInput) && |posts| == 0 && !loading
  {
    var shown := HandleSearch(searchInput, posts, filterPosts);
    if |shown| > 0 then Items(shown)
    else if IsSearch(searchInput) then NotFoundMessage
    else if loading then EmptyMessage
    else Blank
  }

  /**
   * Pagination shown exactly while the fetched page is the list on screen,
   * which is what hiding it during a search is for.
   */
  predicate PaginationVisibleFixed(searchInput: string) {
    !IsSearch(searchInput)
  }

  /** With the corrected rule the bar accompanies the paged list and never the search results. */
  lemma PaginationFollowsDisplayedList(searchInput: string, posts: seq<Post>, filterPosts: seq<Post>)
    ensures PaginationVisibleFixed(searchInput) ==> HandleSearch(searchInput, posts, filterPosts) == posts
    ensures !PaginationVisibleFixed(searchInput) ==> HandleSearch(searchInput, posts, filterPosts) == filterPosts
  {
  }
}
