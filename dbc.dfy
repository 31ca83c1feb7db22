/** The client database table of src/formats/dbc/dbc.ts. A DBC file has a
    20-byte header (a signature that is never checked, then rowCount,
    fieldCount, rowSize and the size of the string block, each a uint32), the
    records, and the string block. The constructor copies both blocks out of the
    file into buffers of the sizes the header gives; the accessors read a record
    field as an int32, as a boolean, or as the NUL-terminated string it points
    to. Strings are decoded one character per byte. */
module Dbc {
  import opened Results
  import opened Bytes

  const HeaderSize := 20

  /** Byte k of the file, or 0 where the file has ended. */
  function ByteOrZero(s: seq<byte>, k: int): byte {
    if 0 <= k < |s| then s[k] else 0
  }

  /** `n` bytes of the file from `start` on, zero where the file has ended. */
  function Block(s: seq<byte>, start: nat, n: nat): (r: seq<byte>)
    ensures |r| == n
    ensures forall k :: 0 <= k < n ==> r[k] == ByteOrZero(s, start + k)
  {
    seq<byte>(n, k => ByteOrZero(s, start + k))
  }

  function Product(a: nat, b: nat): nat {
    a * b
  }

  /** The size of the record block: `rowCount * rowSize`. */
  function RecordLength(s: seq<byte>): nat
    requires |s| >= HeaderSize
  {
    Product(U32At(s, 4), U32At(s, 12))
  }

  /** The record block: `rowCount * rowSize` bytes from offset 20 on. */
  function RecordBlock(s: seq<byte>): seq<byte>
    requires |s| >= HeaderSize
  {
    Block(s, HeaderSize, RecordLength(s))
  }

  /** The string block: the header's count of bytes right after the records;
      bytes past it are dropped. */
  function StringBlock(s: seq<byte>): seq<byte>
    requires |s| >= HeaderSize
  {
    Block(s, HeaderSize + RecordLength(s), U32At(s, 16))
  }

  /** A buffer of `n` zero bytes filled by Buffer.copy from `sourceStart` to
      `sourceEnd` is the file's bytes from `sourceStart`, zero past its end. */
  lemma CopyIsBlock(s: seq<byte>, n: nat, sourceStart: nat, sourceEnd: int)
    requires sourceStart <= |s| && (sourceEnd >= sourceStart + n || sourceEnd >= |s|)
    ensures CopyInto(seq(n, k => 0), 0, s, sourceStart, sourceEnd) == Block(s, sourceStart, n)
  {
    var r := CopyInto(seq(n, k => 0), 0, s, sourceStart, sourceEnd);
    var c := CopyCount(n, 0, |s|, sourceStart, sourceEnd);
    assert c == if sourceStart + n <= |s| then n else |s| - sourceStart;
    forall k | 0 <= k < n
      ensures r[k] == ByteOrZero(s, sourceStart + k)
    {
    }
  }

  /** `Buffer.alloc(n)` followed by `source.copy(buffer, 0, start, end)`, with
      `end` at least `start + n` or the end of the file. `Buffer.copy` throws a
      RangeError when `start` lies past the end of the file, before it looks at
      what there is to copy; otherwise the buffer holds the block of `n` bytes
      from `start`, and nothing is copied once `start` reaches `end`. */
  method CopyBlock(file: array<byte>, start: nat, n: nat, end: int) returns (r: Result<array<byte>>)
    requires end >= start + n || end == file.Length
    ensures r.Err? <==> start > file.Length
    ensures r.Err? ==> r.error == RangeError
    ensures r.Ok? ==> fresh(r.value) && r.value[..] == Block(file[..], start, n)
  {
    if start > file.Length {
      return Err(RangeError);
    }
    var a := new byte[n](k => 0);
    if start < end {
      CopyBytes(a, 0, file, start, end);
      CopyIsBlock(file[..], n, start, end);
    } else {
      assert a[..] == Block(file[..], start, n);
    }
    return Ok(a);
  }

  /** Whether `new DBC(buffer)` returns: the header's fields are there, and the
      string block's copy starts inside the file, that is the record block ends
      within it. */
  predicate Loadable(s: seq<byte>) {
    |s| >= HeaderSize && HeaderSize + RecordLength(s) <= |s|
  }

  /** In a file the constructor accepts, the record block is the file's own
      bytes after the header; only the string block can run past the end of the
      file and read zeros there. */
  lemma RecordsInFile(s: seq<byte>)
    requires Loadable(s)
    ensures RecordBlock(s) == s[HeaderSize..HeaderSize + RecordLength(s)]
  {
    var n := RecordLength(s);
    var b := RecordBlock(s);
    forall k | 0 <= k < n
      ensures b[k] == s[HeaderSize + k]
    {
    }
  }

  /** The contents of a table as a value: the header fields and both blocks.
      The accessors are defined here; a `Table` answers with its contents. */
  datatype Sheet = Sheet(rowCount: int, fieldCount: int, rowSize: int, records: seq<byte>, strings: seq<byte>)
  {
    /** `int(index, offset)`: the int32 at index * rowSize + offset * 4 of the
        record block; a position outside it throws. */
    function Int(index: int, offset: int): (r: Result<int>)
      ensures r.Ok? <==> InBounds(records, index * rowSize + offset * 4, 4)
      ensures r.Err? ==> r.error == RangeError
    {
      var ptr := index * rowSize + offset * 4;
      if InBounds(records, ptr, 4) then Ok(I32At(records, ptr)) else Err(RangeError)
    }

    /** `bool(index, offset)`: the field is not zero. */
    function Bool(index: int, offset: int): (r: Result<bool>)
      ensures r.Ok? <==> Int(index, offset).Ok?
      ensures r.Ok? ==> (r.value <==> Int(index, offset).value != 0)
    {
      var v :- Int(index, offset);
      Ok(v != 0)
    }

    /** `string(index, offset)`: the field is an offset into the string block;
        the string runs from it to the next NUL. */
    function String(index: int, offset: int): (r: Result<string>)
      ensures r.Ok? <==> Int(index, offset).Ok?
    {
      var start :- Int(index, offset);
      var end := IndexOfZero(strings, start);
      Ok(Chars(SliceForString(strings, start, end)))
    }
  }

  class Table {
    const rowCount: int
    const fieldCount: int
    const rowSize: int
    const recordData: array<byte>
    const stringData: array<byte>

    /** The header fields and both blocks of the file, copied out. The source's
        constructor throws on a file that is not `Loadable`; that path is
        `Open`'s. */
    constructor(file: array<byte>)
      requires Loadable(file[..])
      ensures rowCount == U32At(file[..], 4) && fieldCount == U32At(file[..], 8) && rowSize == U32At(file[..], 12)
      ensures recordData[..] == RecordBlock(file[..]) && stringData[..] == StringBlock(file[..])
      ensures fresh(recordData) && fresh(stringData)
    {
      var s := file[..];
      rowCount := U32At(s, 4);
      fieldCount := U32At(s, 8);
      rowSize := U32At(s, 12);
      var recordLength := RecordLength(s);
      var records := CopyBlock(file, HeaderSize, recordLength, HeaderSize + recordLength);
      var strings := CopyBlock(file, HeaderSize + recordLength, U32At(s, 16), file.Length);
      recordData := records.value;
      stringData := strings.value;
    }

    /** What the table holds, as a value. */
    function Contents(): (r: Sheet)
      reads this, recordData, stringData
      ensures r.rowCount == rowCount && r.fieldCount == fieldCount && r.rowSize == rowSize
      ensures r.records == recordData[..] && r.strings == stringData[..]
    {
      Sheet(rowCount, fieldCount, rowSize, recordData[..], stringData[..])
    }

    /** `int(index, offset)`. */
    function Int(index: int, offset: int): (r: Result<int>)
      reads this, recordData, stringData
    {
      Contents().Int(index, offset)
    }

    /** `bool(index, offset)`. */
    function Bool(index: int, offset: int): (r: Result<bool>)
      reads this, recordData, stringData
    {
      Contents().Bool(index, offset)
    }

    /** `string(index, offset)`. */
    function String(index: int, offset: int): (r: Result<string>)
      reads this, recordData, stringData
    {
      Contents().String(index, offset)
    }

    /** A table built from a file reads every field from the file itself: a
        field inside the record block and inside the file is the file's int32
        20 bytes further on, one inside the block but past the end of the file
        reads 0, and one outside the block throws. */
    lemma IntFromFile(file: seq<byte>, index: int, offset: int)
      requires |file| >= HeaderSize && recordData[..] == RecordBlock(file) && rowSize == U32At(file, 12)
      ensures var ptr := index * rowSize + offset * 4;
        && (!(0 <= ptr && ptr + 4 <= recordData.Length) ==> Int(index, offset) == Err(RangeError))
        && (0 <= ptr && ptr + 4 <= recordData.Length && HeaderSize + ptr + 4 <= |file| ==>
              Int(index, offset) == Ok(I32At(file, HeaderSize + ptr)))
        && (0 <= ptr && ptr + 4 <= recordData.Length && HeaderSize + ptr >= |file| ==> Int(index, offset) == Ok(0))
    {
      var ptr := index * rowSize + offset * 4;
      var rec := recordData[..];
      if 0 <= ptr && ptr + 4 <= |rec| {
        assert rec[ptr] == ByteOrZero(file, HeaderSize + ptr);
        assert rec[ptr + 1] == ByteOrZero(file, HeaderSize + ptr + 1);
        assert rec[ptr + 2] == ByteOrZero(file, HeaderSize + ptr + 2);
        assert rec[ptr + 3] == ByteOrZero(file, HeaderSize + ptr + 3);
      }
    }

    /** What a string field reads, with `start` the field's value: from a start
        inside the block, the bytes up to the first NUL at or after it, none of
        them NUL, or "" when no NUL follows; from a negative start, the search
        for the NUL begins that many bytes before the end but the string begins
        at the start of the block. */
    lemma StringContents(index: int, offset: int)
      requires Int(index, offset).Ok?
      ensures var start := Int(index, offset).value;
        var strings := stringData[..];
        && (0 <= start < |strings| ==>
              var z := FirstZeroFrom(strings, start);
              && (z == -1 ==> String(index, offset) == Ok(""))
              && (z != -1 ==> String(index, offset) == Ok(Chars(strings[start..z]))
                              && forall k :: start <= k < z ==> strings[k] != 0))
        && (start >= |strings| ==> String(index, offset) == Ok(""))
        && (start < 0 && |strings| > 0 ==>
              var z := FirstZeroFrom(strings, if start + |strings| >= 0 then start + |strings| else 0);
              String(index, offset) == Ok(if z <= 0 then "" else Chars(strings[..z])))
    {
      var start := Int(index, offset).value;
      var strings := stringData[..];
      if 0 <= start < |strings| {
        FirstZeroFromSpec(strings, start);
      }
    }
  }

  /** `new DBC(buffer)`: the header's fields are read with readUInt32LE, which
      throws on a file shorter than the 20-byte header, and the copy of the
      string block throws when it would start past the end of the file. */
  method Open(file: array<byte>) returns (r: Result<Table>)
    ensures r.Ok? <==> file.Length >= HeaderSize && HeaderSize + RecordLength(file[..]) <= file.Length
    ensures r.Err? ==> r.error == RangeError
    ensures r.Ok? ==> var t := r.value;
      && t.rowCount == U32At(file[..], 4) && t.fieldCount == U32At(file[..], 8) && t.rowSize == U32At(file[..], 12)
      && t.recordData[..] == RecordBlock(file[..]) && t.stringData[..] == StringBlock(file[..])
      && fresh(t.recordData) && fresh(t.stringData)
  {
    if file.Length < HeaderSize || HeaderSize + RecordLength(file[..]) > file.Length {
      return Err(RangeError);
    }
    var t := new Table(file);
    return Ok(t);
  }
  /** The contents of the table `DBC.Load` answered, `None` for null. */
  function SheetOf(table: Table?): Option<Sheet>
    reads if table == null then {} else {table as object, table.recordData, table.stringData}
  {
    if table == null then None else Some(table.Contents())
  }

  /** Rows 0 to n - 1 of a table, each read by `read`, as the managers' loops
      read them: the first row whose read throws ends the loop with its error. */
  function Rows<R>(read: int -> Result<R>, n: int): Result<seq<R>>
    decreases n
  {
    if n <= 0 then Ok([])
    else
      var prev :- Rows(read, n - 1);
      var row :- read(n - 1);
      Ok(prev + [row])
  }

  /** The rows read are the rows there are, each as `read` gave it. */
  lemma {:induction false} RowsRead<R>(read: int -> Result<R>, n: int)
    requires Rows(read, n).Ok?
    ensures |Rows(read, n).value| == (if n <= 0 then 0 else n)
    ensures forall k :: 0 <= k < |Rows(read, n).value| ==> read(k) == Ok(Rows(read, n).value[k])
    decreases n
  {
    if n > 0 {
      RowsRead(read, n - 1);
    }
  }

  /** As many rows are read as the count says. */
  lemma {:induction false} RowsLength<R>(read: int -> Result<R>, n: int)
    requires Rows(read, n).Ok?
    ensures |Rows(read, n).value| == (if n <= 0 then 0 else n)
    decreases n
  {
    if n > 0 {
      RowsLength(read, n - 1);
    }
  }

  /** Row k of the rows read is what `read` gave for it. */
  lemma RowsAt<R>(read: int -> Result<R>, n: int, k: int)
    requires Rows(read, n).Ok? && 0 <= k < n
    ensures k < |Rows(read, n).value| && read(k) == Ok(Rows(read, n).value[k])
  {
    RowsRead(read, n);
  }

  /** Reading one more row extends the rows read so far. */
  lemma RowsNext<R>(read: int -> Result<R>, i: int)
    requires i >= 0 && Rows(read, i).Ok? && read(i).Ok?
    ensures Rows(read, i + 1) == Ok(Rows(read, i).value + [read(i).value])
  {
  }

  /** A row whose read throws makes every longer read throw the same error. */
  lemma {:induction false} RowsErr<R>(read: int -> Result<R>, i: int, n: int)
    requires 0 <= i < n && Rows(read, i).Ok? && read(i).Err?
    ensures Rows(read, n) == Err(read(i).error)
    decreases n
  {
    if n > i + 1 {
      RowsErr(read, i, n - 1);
    }
  }
}
