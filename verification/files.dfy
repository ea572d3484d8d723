/** The file-name conventions shared by the scripts: resolutions are
    downloaded as ".pdf" files and their texts kept in ".txt" files. */
module Files {
  import opened Outcomes
  import opened PyStr

  const Pdf := ".pdf"
  const Txt := ".txt"

  /** `name.endswith(".pdf")` */
  predicate IsPdfName(name: string) {
    EndsWith(name, Pdf)
  }

  /** `name.endswith(".txt")` for one directory entry. */
  predicate IsTextFile(e: DirEntry) {
    EndsWith(e.name, Txt)
  }
}
