/**
 * The article record (Art.java). Every field is assigned once, by the
 * constructor, and only read afterwards, so an article is an immutable value:
 * a datatype whose destructors are the getters.
 */
module Articles {
  import opened Wrappers

  /** One article: `author` is None where the Java field holds null. */
  datatype Art = Art(
    category: string,     // getCategory
    title: string,        // getTitle
    realiseDate: string,  // getRealiseDate
    url: string,          // getUrl
    author: Option<string> // getAuthor
  )

  /** Each getter returns exactly the argument given to the constructor, null author included. */
  lemma GettersReturnArguments(category: string, title: string, realiseDate: string, url: string, author: Option<string>)
    ensures var art := Art(category, title, realiseDate, url, author);
      art.category == category && art.title == title && art.realiseDate == realiseDate &&
      art.url == url && art.author == author
  {
  }

  /**
   * Two articles agree on every getter exactly when they were built from the
   * same five arguments.
   */
  lemma SameArgumentsSameArticle(a: Art, b: Art)
    ensures a == b <==>
      a.category == b.category && a.title == b.title && a.realiseDate == b.realiseDate &&
      a.url == b.url && a.author == b.author
  {
  }
}
