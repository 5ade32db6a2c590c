/**
 * The filesystem as both scripts see it. A path is the sequence of its components, unresolved:
 * a `.` or `..` component is kept as a name, not applied; a directory listing is a
 * sequence of entries in enumeration order; every effect on the disk is a planned action.
 */
module FileActions {

  type Path = seq<string>

  /** One item of a directory listing: its name and whether it is a regular file. */
  datatype Entry = Entry(name: string, isFile: bool)

  datatype Action =
    | MakeDir(dir: Path)
    | Copy(src: Path, dst: Path)
    | Delete(path: Path)
}
