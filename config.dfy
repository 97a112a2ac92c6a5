/** Application-wide constants (the CONFIG object of app.js) and the Option type. */
module Config {

  /** Optional values: the source's `null`-initialised state variables. */
  datatype Option<+T> = None | Some(value: T)

  /** Largest number of photos a session may hold. */
  const MaxPhotos: nat := 6

  /** Largest number of student name fields on the form. */
  const MaxStudents: nat := 10

  /** Largest accepted upload, in bytes (10 MiB); a file of exactly this size is accepted. */
  const MaxFileSize: nat := 10485760

  /** MIME types an upload may declare. */
  const AllowedFileTypes: seq<string> := ["image/jpeg", "image/jpg", "image/png"]

  /** Bounding box of the re-encoded image, in pixels. */
  const MaxWidth: real := 800.0
  const MaxHeight: real := 600.0
}
