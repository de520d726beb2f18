/** Listing requests and the pages both back ends answer them with. */
module Pages {
  import opened Results
  import opened Timeline
  import opened ArticleStore
  import Cursor

  /** One listing request; feedID 0 means every feed of the user. */
  datatype Query = Query(userID: int, feedID: int, limit: nat, unreadOnly: bool)

  /** What a listing reads of an article: all but its content. */
  function Summary(a: Article): Article {
    a.(content := "")
  }

  datatype Row = Row(id: int, article: Article, isRead: bool, isStarred: bool)

  datatype Page = Page(articles: seq<Row>, nextCursor: string) {
    function Refs(): (s: seq<Ref>)
      ensures |s| == |articles|
    {
      seq(|articles|, i requires 0 <= i < |articles| => Ref(articles[i].id, articles[i].article.publishedAt))
    }
  }

  /** What a page amounts to for the client: the refs shown, and the position behind which the
      next request continues. */
  datatype Answer = Answer(refs: seq<Ref>, next: Option<Ref>)

  ghost function Delivered(answers: seq<Answer>): seq<Ref> {
    if answers == [] then [] else answers[0].refs + Delivered(answers[1..])
  }

  ghost function Seen(pages: seq<Page>): seq<Ref> {
    if pages == [] then [] else pages[0].Refs() + Seen(pages[1..])
  }

  predicate ValidCursor(cursor: string) {
    cursor == "" || Cursor.Decode(cursor).Ok?
  }

  /** The position a cursor text stands for; the empty text is the start of the listing. */
  function Position(cursor: string): Option<Ref>
    requires ValidCursor(cursor)
  {
    if cursor == "" then None else Some(Cursor.Decode(cursor).value)
  }

  function CursorFor(pos: Option<Ref>): string {
    if pos.None? then "" else Cursor.Encode(pos.value)
  }

  lemma {:induction false} CursorForPosition(pos: Option<Ref>)
    requires pos.Some? ==> Cursor.Encodable(pos.value)
    ensures ValidCursor(CursorFor(pos)) && Position(CursorFor(pos)) == pos
    ensures CursorFor(pos) == "" <==> pos.None?
  {
    if pos.Some? {
      Cursor.CursorRoundTrip(pos.value);
    }
  }

  /** Every timestamp and id fits in the 64 bits a cursor carries. */
  ghost predicate Storable(st: Store) {
    forall id :: id in st.articles ==> Cursor.Encodable(st.RefOf(id))
  }
}
