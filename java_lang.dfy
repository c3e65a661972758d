/**
 The few pieces of Java semantics the recognizer relies on: the signed `byte` type,
 the `(byte)` narrowing cast, the unsigned view `b & 0xff`, and the exceptions that
 `a.length` and `a[i]` raise on a `byte[]` reference.
 */
module JavaLang {

  import opened Rfc1952

  /** Java's `byte`: a signed two's-complement 8-bit integer. */
  newtype JByte = x: int | -128 <= x < 128

  /**
   The narrowing primitive conversion `(byte) x`: it keeps the low 8 bits of `x` and
   reads them as a signed value, so `(byte) 0x8b` is -117.
   */
  function ToByte(x: int): (b: JByte)
    ensures Unsigned(b) == x % 256
    ensures -128 <= x < 128 ==> b as int == x
  {
    ((x + 128) % 256 - 128) as JByte
  }

  /**
   The unsigned view `b & 0xff` of a Java byte: the octet it holds. A signed -117 and
   an unsigned 139 are the same octet 0x8b.
   */
  function Unsigned(b: JByte): (o: Octet)
    ensures o == (b as int) % 256
  {
    if b < 0 then b as int + 256 else b as int
  }

  /** Casting the octet of a byte back to `byte` gives the byte itself. */
  lemma ToByteOfOctet(b: JByte)
    ensures ToByte(Unsigned(b)) == b
  {
  }

  /** Two bytes are equal exactly when their octets are: `b == (byte) o` iff `(b & 0xff) == o`. */
  lemma SameOctet(b: JByte, o: Octet)
    ensures b == ToByte(o) <==> Unsigned(b) == o
  {
  }

  /** A `byte[]` reference: `null` or an array with its elements. */
  datatype ByteArray = Null | Array(elems: seq<JByte>)

  datatype JavaException = NullPointer | ArrayIndexOutOfBounds(index: int)

  /** The result of evaluating a Java expression: a value, or a thrown exception. */
  datatype Outcome<+T> = Returned(value: T) | Threw(exception: JavaException)

  /** `a.length`: throws NullPointerException on `null`. */
  function Length(a: ByteArray): (r: Outcome<nat>)
    ensures r.Threw? <==> a.Null?
    ensures r.Threw? ==> r.exception == NullPointer
    ensures r.Returned? ==> r.value == |a.elems|
  {
    match a
    case Null => Threw(NullPointer)
    case Array(elems) => Returned(|elems|)
  }

  /**
   `a[i]`: throws NullPointerException on `null` and ArrayIndexOutOfBoundsException
   for an index outside `0 .. a.length - 1`.
   */
  function Load(a: ByteArray, i: int): (r: Outcome<JByte>)
    ensures r.Returned? <==> a.Array? && 0 <= i < |a.elems|
    ensures r.Returned? ==> r.value == a.elems[i]
    ensures a.Null? ==> r == Threw(NullPointer)
    ensures a.Array? && !(0 <= i < |a.elems|) ==> r == Threw(ArrayIndexOutOfBounds(i))
  {
    match a
    case Null => Threw(NullPointer)
    case Array(elems) =>
      if 0 <= i < |elems| then Returned(elems[i]) else Threw(ArrayIndexOutOfBounds(i))
  }

  /** The `byte[]` contents Java holds for a sequence of file octets, one byte per octet. */
  function ToJavaBytes(octets: seq<Octet>): (bytes: seq<JByte>)
    ensures |bytes| == |octets|
  {
    if octets == [] then [] else [ToByte(octets[0])] + ToJavaBytes(octets[1..])
  }

  /** The octets held by a `byte[]`, each element read as `b & 0xff`. */
  function ToOctets(bytes: seq<JByte>): (octets: seq<Octet>)
    ensures |octets| == |bytes|
  {
    if bytes == [] then [] else [Unsigned(bytes[0])] + ToOctets(bytes[1..])
  }

  lemma {:induction false} ToJavaBytesAt(octets: seq<Octet>, i: int)
    requires 0 <= i < |octets|
    ensures ToJavaBytes(octets)[i] == ToByte(octets[i])
  {
    if i > 0 {
      ToJavaBytesAt(octets[1..], i - 1);
    }
  }

  lemma {:induction false} ToOctetsAt(bytes: seq<JByte>, i: int)
    requires 0 <= i < |bytes|
    ensures ToOctets(bytes)[i] == Unsigned(bytes[i])
  {
    if i > 0 {
      ToOctetsAt(bytes[1..], i - 1);
    }
  }

  /** Reading file octets into a `byte[]` and taking `b & 0xff` of each gives the octets back. */
  lemma {:induction false} OctetsOfJavaBytes(octets: seq<Octet>)
    ensures ToOctets(ToJavaBytes(octets)) == octets
  {
    if octets != [] {
      OctetsOfJavaBytes(octets[1..]);
    }
  }

  /** Every `byte[]` is the Java form of its own octets. */
  lemma {:induction false} JavaBytesOfOctets(bytes: seq<JByte>)
    ensures ToJavaBytes(ToOctets(bytes)) == bytes
  {
    if bytes != [] {
      ToByteOfOctet(bytes[0]);
      JavaBytesOfOctets(bytes[1..]);
    }
  }
}
