/**
 Ghidra's GZIP recognizer: given the first bytes of a file, it reports whether the
 file appears to be GZIP compressed by checking the two member-header identification
 bytes. The Java `String` result is an Option (None for `null`), and evaluation is
 written out with Java's exceptions so that the absence of out-of-bounds reads is a
 stated property rather than an assumption.
 */
module GzipRecognizer {

  import opened Wrappers
  import opened Rfc1952
  import opened JavaLang

  const GzipDescription: string := "File appears to be a GZIP compressed file"

  /** The recognizer reads at most this many leading bytes; it covers both indices read. */
  function NumberOfBytesRequired(): (n: nat)
    ensures n == 2
  {
    2
  }

  /** The recognizer's priority among Ghidra's recognizers, independent of any input. */
  function GetPriority(): (p: int)
    ensures p == 100
  {
    100
  }

  /**
   `recognize(bytes)` in Java evaluation order: read `bytes.length`; when it is at least
   `numberOfBytesRequired()`, compare `bytes[0]` with `(byte) 0x1f` and, only when
   they are equal (`&&` short-circuits), `bytes[1]` with `(byte) 0x8b`.
   The only exception it can raise is the NullPointerException of a `null` argument:
   no index is ever read out of bounds. Its value is `null` or the one fixed message.
   */
  function Recognize(bytes: ByteArray): (r: Outcome<Option<string>>)
    ensures r.Threw? <==> bytes.Null?
    ensures r.Threw? ==> r.exception == NullPointer
    ensures r.Returned? ==> r.value == None || r.value == Some(GzipDescription)
  {
    match Length(bytes)
    case Threw(e) => Threw(e)
    case Returned(length) =>
      if length >= NumberOfBytesRequired() then
        match Load(bytes, 0)
        case Threw(e) => Threw(e)
        case Returned(first) =>
          if first != ToByte(0x1f) then Returned(None)
          else
            match Load(bytes, 1)
            case Threw(e) => Threw(e)
            case Returned(second) =>
              if second == ToByte(0x8b) then Returned(Some(GzipDescription)) else Returned(None)
      else Returned(None)
  }

  /**
   On any array the recognizer returns the GZIP message exactly when the array has
   at least two bytes whose octets are ID1 and ID2, and `null` otherwise.
   */
  lemma RecognizesExactlyMemberId(bytes: seq<JByte>)
    ensures Recognize(Array(bytes)) == Returned(Some(GzipDescription)) <==>
            |bytes| >= 2 && Unsigned(bytes[0]) == ID1 && Unsigned(bytes[1]) == ID2
    ensures Recognize(Array(bytes)) != Returned(Some(GzipDescription)) ==>
            Recognize(Array(bytes)) == Returned(None)
  {
  }

  /**
   For a file read into a `byte[]`, the recognizer's verdict is the GZIP member-header
   test of RFC 1952 on the file's octets.
   */
  lemma RecognizesFileIffRfcMemberId(file: seq<Octet>)
    ensures Recognize(Array(ToJavaBytes(file))) ==
            Returned(if HasMemberId(file) then Some(GzipDescription) else None)
  {
  }

  /** An array shorter than `numberOfBytesRequired()` is never recognized; a recognized one is that long. */
  lemma ShortArrayNotRecognized(bytes: seq<JByte>)
    ensures |bytes| < NumberOfBytesRequired() ==> Recognize(Array(bytes)) == Returned(None)
    ensures Recognize(Array(bytes)) == Returned(Some(GzipDescription)) ==>
            |bytes| >= NumberOfBytesRequired()
  {
  }

  /** A first octet other than ID1 gives `null`, whatever follows. */
  lemma WrongId1NotRecognized(bytes: seq<JByte>)
    requires |bytes| >= 1 && Unsigned(bytes[0]) != ID1
    ensures Recognize(Array(bytes)) == Returned(None)
  {
  }

  /** A second octet other than ID2 gives `null`, whatever the first one and the rest are. */
  lemma WrongId2NotRecognized(bytes: seq<JByte>)
    requires |bytes| >= 2 && Unsigned(bytes[1]) != ID2
    ensures Recognize(Array(bytes)) == Returned(None)
  {
  }

  /** Only indices 0 and 1 are inspected: arrays that agree on them get the same result. */
  lemma OnlyFirstTwoBytesMatter(a: seq<JByte>, b: seq<JByte>)
    requires |a| >= 2 && |b| >= 2 && a[..2] == b[..2]
    ensures Recognize(Array(a)) == Recognize(Array(b))
  {
  }

  /** Appending bytes to a recognized array keeps it recognized. */
  lemma AppendingKeepsRecognition(bytes: seq<JByte>, suffix: seq<JByte>)
    requires Recognize(Array(bytes)) == Returned(Some(GzipDescription))
    ensures Recognize(Array(bytes + suffix)) == Returned(Some(GzipDescription))
  {
  }
}
