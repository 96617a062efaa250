/** The article record the parser produces: five strings fixed when the
    record is built. As a Dafny datatype value it cannot be changed afterwards.
    The rest of the app reads it only through the getters. */
module TechNewsRecord {

  datatype TechNews = TechNews(section: string, title: string, date: string, author: string, url: string)

  /** The section the record was built with. */
  function GetSection(n: TechNews): (r: string)
    ensures TechNews(r, n.title, n.date, n.author, n.url) == n
  {
    n.section
  }

  /** The headline the record was built with. */
  function GetTitle(n: TechNews): (r: string)
    ensures TechNews(n.section, r, n.date, n.author, n.url) == n
  {
    n.title
  }

  /** The publication date text the record was built with, unparsed. */
  function GetDate(n: TechNews): (r: string)
    ensures TechNews(n.section, n.title, r, n.author, n.url) == n
  {
    n.date
  }

  /** The author the record was built with. */
  function GetAuthor(n: TechNews): (r: string)
    ensures TechNews(n.section, n.title, n.date, r, n.url) == n
  {
    n.author
  }

  /** The article link the record was built with. */
  function GetUrl(n: TechNews): (r: string)
    ensures TechNews(n.section, n.title, n.date, n.author, r) == n
  {
    n.url
  }

  /** Construction and the getters are inverse to each other: each getter
      returns its constructor argument, and the five getters together
      determine the record. */
  lemma ConstructorAndGettersAgree(section: string, title: string, date: string, author: string, url: string, n: TechNews)
    ensures var m := TechNews(section, title, date, author, url);
      GetSection(m) == section && GetTitle(m) == title && GetDate(m) == date
      && GetAuthor(m) == author && GetUrl(m) == url
    ensures TechNews(GetSection(n), GetTitle(n), GetDate(n), GetAuthor(n), GetUrl(n)) == n
  {
  }
}
