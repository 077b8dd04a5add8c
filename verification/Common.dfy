// Status codes, record identifiers and byte strings shared by every layer.
module Common {

  datatype Status =
    | OK
    // file layer
    | BADFILEPTR | FILENOTOPEN | FILEOPEN | UNIXERR | BADPAGENO | FILEEXISTS
    // buffer manager and hash tables
    | HASHTBLERROR | HASHNOTFOUND | BUFFEREXCEEDED | PAGENOTPINNED | BADBUFFER | PAGEPINNED
    // pages
    | NOSPACE | NORECORDS | ENDOFPAGE | INVALIDSLOTNO | INVALIDRECLEN
    // heap files
    | BADSCANPARM | FILEEOF
    // sorting and catalogs
    | BADSORTPARM | INSUFMEM
    | BADCATPARM | RELNOTFOUND | ATTRNOTFOUND | NAMETOOLONG | DUPLATTR | RELEXISTS | ATTRTOOLONG
    | ATTRTYPEMISMATCH

  newtype Byte = x: int | 0 <= x < 256

  type Bytes = seq<Byte>

  /** The names of the catalogs, relcat and attrcat. */
  const RELCAT: Bytes := [114, 101, 108, 99, 97, 116]
  const ATTRCAT: Bytes := [97, 116, 116, 114, 99, 97, 116]

  /** The catalogs cannot be changed by queries. */
  predicate Reserved(relation: Bytes) {
    relation == [] || relation == RELCAT || relation == ATTRCAT
  }

  datatype RID = RID(pageNo: int, slotNo: int)

  const NULLRID := RID(-1, -1)

  datatype Option<+T> = None | Some(value: T)
}
