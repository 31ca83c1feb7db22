/** Failure-carrying results: every `throw` of the viewer's readers becomes an `Err`. */
module Results {

  datatype Option<+T> = None | Some(value: T)

  /** The n holes a JavaScript array gets when it grows past its end. */
  function Holes<T>(n: nat): (r: seq<Option<T>>)
    ensures |r| == n && forall k :: 0 <= k < n ==> r[k] == None
  {
    seq(n, k => None)
  }

  /** The distinct ways the modelled code throws. */
  datatype Error =
    | RangeError                              // a Node Buffer read or copy outside the buffer
    | TypeError                               // a property read on `undefined`
    | FormatError                             // MPQ magic or format revision rejected
    | UnsupportedFeature                      // MPQ SingleUnit or Crc block flag
    | CorruptArchive                          // MPQ sector offset table inconsistent
    | UnsupportedCharacter(code: int)         // MPQ hash of a character outside the cipher table
    | UnsupportedCompression(tag: Option<int>)// MPQ sector codec tag other than zlib / PKWare
    | CodecFailed                             // the foreign zlib or implode decoder threw
    | BadData(what: string)                   // an MDX or BLP parser rejected its input
    | NoSuchFile                              // fs.openSync of a path that does not exist

  datatype Result<+T> = Ok(value: T) | Err(error: Error) {
    predicate IsFailure() { Err? }
    function PropagateFailure<U>(): Result<U>
      requires Err?
    {
      Err(error)
    }
    function Extract(): T
      requires Ok?
    {
      value
    }
  }
}
