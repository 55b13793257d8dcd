/** The record the library publishes for one audio file. */
module Models {
  import opened Common

  /** One audio file. `id` and `relativePath` are the root-relative path
      with forward slashes; the optional fields are absent when the file's
      tags or its audio stream do not provide them. `modifiedAt` is the
      modification time in whole seconds. */
  datatype Episode = Episode(
    id: string,
    filename: string,
    relativePath: string,
    title: string,
    artist: Option<string>,
    album: Option<string>,
    durationSeconds: Option<real>,
    bitrateKbps: Option<int>,
    filesizeBytes: int,
    modifiedAt: int)
}
