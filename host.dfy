/** What the scripts exchange with the file system, as plain values. */
module Host {
  import opened Wrappers
  import opened JsValues

  /** `path.join(dir, name)`, kept as its two parts (normalisation of ".." is not modelled). */
  datatype Path = Path(dir: string, name: string)

  /** One `fs.writeFileSync(path, content)`. */
  datatype FileWrite = FileWrite(path: Path, content: string)

  /** `JSON.parse(fs.readFileSync(path, 'utf8'))`; `None` when either throws. */
  type Reader = Path -> Option<Json>
}
