/** The file-input change event both pages handle: no file chosen, or a
    file with its name and the outcome of reading its text. */
module Browser {

  /** What `file.text()` produced: the file's contents, or a read error. */
  datatype ReadResult = Read(text: string) | ReadFailed

  datatype Upload = NoFile | File(name: string, contents: ReadResult)
}
