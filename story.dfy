/**
 * The catalog records: a title with its ordered chapters. Both are plain
 * values (the source derives `Clone`, and a clone of a value is the value).
 */
module Story {
  import opened Numbers

  /** One chapter: its position-derived id, the link text and the link target. */
  datatype Chapter = Chapter(id: u32, description: string, url: string)

  /** One catalogued work; `updated` is a `YYYY-MM-DD` date, `chapters` is in storage order. */
  datatype Title = Title(id: u32, title: string, updated: string, url: string, chapters: seq<Chapter>)

  /** `Title::new`: a record holding exactly the five arguments. */
  function NewTitle(id: u32, title: string, updated: string, url: string, chapters: seq<Chapter>): (t: Title)
    ensures t.id == id && t.title == title && t.updated == updated && t.url == url
    ensures t.chapters == chapters
  {
    Title(id, title, updated, url, chapters)
  }

  /** `Chapter::new`: a record holding exactly the three arguments. */
  function NewChapter(id: u32, description: string, url: string): (c: Chapter)
    ensures c.id == id && c.description == description && c.url == url
  {
    Chapter(id, description, url)
  }
}
