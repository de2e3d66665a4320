/** Entries of a PDF's table of contents, as returned by the outline reader. */
module Toc {

  /** One outline entry: nesting level, title text and 1-based page number. */
  datatype TocEntry = TocEntry(level: int, title: string, page: int)
}
