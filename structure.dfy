/**
 * The documentation generator's own objects, as far as the two hooks see them:
 * a discovered source file and a page being built. Both are owned by the host.
 */
module Structure {
  import opened Wrappers

  /** One discoverable source document, identified by its slash-separated path
      relative to the documentation directory. The hooks only read it. */
  datatype File = File(srcPath: string)

  /** A page being built: the source file it comes from and its display title,
      which the host may or may not have set before the hooks run. */
  class Page {
    var title: Option<string>
    var file: File

    constructor (title: Option<string>, file: File)
      ensures this.title == title && this.file == file
    {
      this.title := title;
      this.file := file;
    }
  }
}
