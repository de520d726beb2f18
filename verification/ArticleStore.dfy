/** The tables both back ends keep: articles by id, subscriptions and per-user article statuses.

    Times are nanoseconds since the Unix epoch. A user has at most one subscription per feed and
    at most one status per article. */
module ArticleStore {
  import opened Timeline

  datatype Article = Article(
    feedID: int, title: string, url: string, content: string, description: string,
    author: string, publishedAt: int, createdAt: int)

  datatype Status = Status(isRead: bool, isStarred: bool)

  datatype Store = Store(
    articles: map<int, Article>,
    subscriptions: set<(int, int)>,       // (user, feed)
    statuses: map<(int, int), Status>)    // (user, article)
  {
    predicate Subscribed(userID: int, feedID: int) {
      (userID, feedID) in subscriptions
    }

    /** COALESCE(is_read, 0): a missing status counts as unread. */
    predicate IsRead(userID: int, articleID: int) {
      (userID, articleID) in statuses && statuses[(userID, articleID)].isRead
    }

    predicate IsStarred(userID: int, articleID: int) {
      (userID, articleID) in statuses && statuses[(userID, articleID)].isStarred
    }

    function RefOf(id: int): Ref
      requires id in articles
    {
      Ref(id, articles[id].publishedAt)
    }

    function FeedArticles(feedID: int): set<int> {
      set id | id in articles && articles[id].feedID == feedID
    }
  }
}
