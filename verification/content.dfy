/** The parts of the upstream comic API's payloads the client reads, after
    the transport has unwrapped them. Absent or falsy string fields are `""`. */
module Content {

  /** One element of a comic's chapter list. */
  datatype Chapter = Chapter(slug: string, title: string)

  /** `data.data` of the detail endpoint: a missing `chapters` is the empty list. */
  datatype ComicDetail = ComicDetail(title: string, image: string, chapters: seq<Chapter>)

  /** `data.data` of the chapter endpoint. `relationSlug` is `relation.slug`,
      `""` when `relation` itself is absent. */
  datatype ChapterData = ChapterData(
    title: string,
    parentSlug: string,
    comicSlug: string,
    relationSlug: string,
    comicTitle: string,
    parentTitle: string)
}
