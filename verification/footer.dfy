/** Locating the serialized file metadata inside a whole Parquet file held in
    memory. The layout is the one of the "File Format" section of the Apache
    Parquet format specification:

      "PAR1" | column data | FileMetaData | 4-byte LE length | "PAR1"

    Every place where the program would panic (an out-of-range slice, a failed
    `assert_eq!`, a `usize` subtraction that underflows in a debug build)
    becomes an `Err` here. */
module Footer {
  import opened Results
  import opened Bytes

  /** The ASCII bytes of "PAR1". */
  const Magic: seq<u8> := [0x50, 0x41, 0x52, 0x31]

  /** Width of the little-endian metadata length field. */
  const LengthFieldLen: nat := 4

  datatype FooterError =
    | TooShortForHeader      // fewer bytes than the leading magic
    | BadHeaderMagic         // first four bytes are not "PAR1"
    | BadFooterMagic         // last four bytes are not "PAR1"
    | NoRoomForLength        // no four bytes left before the trailing magic
    | MetadataOverlapsHeader // the declared length reaches into the leading magic

  /** The metadata block and the size of the column-data region that sits
      between the leading magic and the metadata. */
  datatype Located = Located(metadata: seq<u8>, dataSize: nat)

  /** The declared metadata length: the `u32` stored just before the
      trailing magic. */
  function DeclaredLength(buf: seq<u8>): (size: nat)
    requires |buf| >= |Magic| + LengthFieldLen
    ensures size < U32Limit
  {
    LeU32(buf[|buf| - 8 .. |buf| - 4])
  }

  /** The whole-file layout, written forwards: what a writer emits. */
  function Assemble(data: seq<u8>, metadata: seq<u8>): (buf: seq<u8>)
    requires |metadata| < U32Limit
    ensures |buf| == 4 + |data| + |metadata| + 4 + 4
    ensures buf[..4] == Magic && buf[|buf| - 4..] == Magic
  {
    Magic + data + metadata + LeBytes(|metadata|) + Magic
  }

  /** Finds the metadata block of a whole-file buffer. The checks run in the
      program's order, so the error reported is the first panic the program
      would hit. */
  function LocateFooter(buf: seq<u8>): (r: Result<Located, FooterError>)
    // when it succeeds
    ensures r.Ok? <==>
              && |buf| >= 8
              && buf[..4] == Magic
              && buf[|buf| - 4..] == Magic
              && DeclaredLength(buf) + 12 <= |buf|
    // which failure, in the order the program checks
    ensures |buf| < 4 ==> r == Err(TooShortForHeader)
    ensures |buf| >= 4 && buf[..4] != Magic ==> r == Err(BadHeaderMagic)
    ensures |buf| >= 4 && buf[..4] == Magic && buf[|buf| - 4..] != Magic ==> r == Err(BadFooterMagic)
    ensures 4 <= |buf| < 8 && buf[..4] == Magic && buf[|buf| - 4..] == Magic ==> r == Err(NoRoomForLength)
    ensures |buf| >= 8 && buf[..4] == Magic && buf[|buf| - 4..] == Magic && DeclaredLength(buf) + 12 > |buf| ==>
              r == Err(MetadataOverlapsHeader)
    // what it yields
    ensures r.Ok? ==>
              var size := DeclaredLength(buf);
              && |r.value.metadata| == size
              && r.value.metadata == buf[|buf| - 8 - size .. |buf| - 8]
              && 4 + r.value.dataSize + size + LengthFieldLen + 4 == |buf|
  {
    if |buf| < |Magic| then Err(TooShortForHeader)
    else if buf[0..|Magic|] != Magic then Err(BadHeaderMagic)
    else
      var magicStart := |buf| - |Magic|;
      if buf[magicStart..magicStart + |Magic|] != Magic then Err(BadFooterMagic)
      else if magicStart < LengthFieldLen then Err(NoRoomForLength)
      else
        var sizeStart := magicStart - LengthFieldLen;
        var size := LeU32(buf[sizeStart..sizeStart + LengthFieldLen]);
        // `file_size - size - 8 - 4`: each step must stay non-negative
        if size > |buf| || |buf| - size < 2 * |Magic| || |buf| - size - 2 * |Magic| < LengthFieldLen then
          Err(MetadataOverlapsHeader)
        else
          var dataSize := |buf| - size - 2 * |Magic| - LengthFieldLen;
          // `metadata_size_start - size` cannot underflow once the line above did not
          var start := sizeStart - size;
          Ok(Located(buf[start..start + size], dataSize))
  }

  /** Where each part of an assembled file sits. */
  lemma AssembledLayout(data: seq<u8>, metadata: seq<u8>)
    requires |metadata| < U32Limit
    ensures var buf := Assemble(data, metadata);
            && buf[4 + |data| .. |buf| - 8] == metadata
            && buf[|buf| - 8 .. |buf| - 4] == LeBytes(|metadata|)
  {
    var buf := Assemble(data, metadata);
    assert buf == (Magic + data) + metadata + LeBytes(|metadata|) + Magic;
  }

  /** Locating the footer of an assembled file gives back the metadata and
      the size of the data region it was built from. */
  lemma LocateAssembled(data: seq<u8>, metadata: seq<u8>)
    requires |metadata| < U32Limit
    ensures LocateFooter(Assemble(data, metadata)) == Ok(Located(metadata, |data|))
  {
    AssembledLayout(data, metadata);
    LeU32OfLeBytes(|metadata|);
  }

  /** Conversely, every buffer the locator accepts is exactly an assembled
      file: the magics, the data region, the metadata and its length field
      tile the buffer with nothing left over. */
  lemma LocatedIsAssembled(buf: seq<u8>)
    requires LocateFooter(buf).Ok?
    ensures var f := LocateFooter(buf).value;
            |f.metadata| < U32Limit && buf == Assemble(buf[4..4 + f.dataSize], f.metadata)
  {
    var f := LocateFooter(buf).value;
    var n := |buf|;
    var d := f.dataSize;
    LeBytesOfLeU32(buf[n - 8 .. n - 4]);
    assert buf == buf[..4] + buf[4..4 + d] + buf[4 + d .. n - 8] + buf[n - 8 .. n - 4] + buf[n - 4..];
  }
}
