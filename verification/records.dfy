/** The file records that flow through the pipeline stages. */
module Records {
  import opened Wrappers

  /**
   * A Vinyl file: its path and its contents read as text.  `None` stands for
   * a record whose contents are missing (`null`, or an object that is not a
   * file at all).
   */
  datatype Vinyl = Vinyl(path: string, contents: Option<string>)
}
